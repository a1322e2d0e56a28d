// The line editor: keystrokes echoed and collected by putc while terminal_read
// waits (student-distrib/terminal.c, student-distrib/lib.c).
module LineEditor {
  import opened CString
  import opened Console
  import opened ScreenLog

  // ---- The specification: a line, and what it has left behind on the screen ----

  // `line` is what has been typed; `tail` is what still stands right of the cursor
  // where the line was once longer.
  datatype Edit = Edit(line: seq<byte>, tail: seq<byte>)

  const Empty := Edit([], [])

  // A key is appended while there is room.  Backspace erases the last byte, but on a
  // full line it takes back two bytes and leaves them on the screen.
  ghost function Key(e: Edit, c: byte): (r: Edit)
    requires |e.line| <= LINE
    ensures |r.line| <= LINE
  {
    var n := |e.line|;
    if c == BACKSPACE then
      if n == 0 then e
      else if n == LINE then Edit(e.line[..n - 2], e.line[n - 2..] + e.tail)
      else Edit(e.line[..n - 1], [SPACE] + e.tail)
    else if n == LINE then e
    else Edit(e.line + [c], if e.tail == [] then [] else e.tail[1..])
  }

  ghost function Keys(e: Edit, keys: seq<byte>): (r: Edit)
    requires |e.line| <= LINE
    ensures |r.line| <= LINE
    decreases |keys|
  {
    if keys == [] then e else Keys(Key(e, keys[0]), keys[1..])
  }

  ghost predicate NoBreaks(t: seq<byte>) {
    forall i :: 0 <= i < |t| ==> !Breaks(t[i])
  }

  // Without backspaces the line is what is typed, as far as it fits.
  lemma {:induction false} PlainKeys(e: Edit, t: seq<byte>)
    requires |e.line| <= LINE && Without(t, BACKSPACE)
    ensures Keys(e, t).line == if |e.line| + |t| <= LINE then e.line + t else (e.line + t)[..LINE]
    decreases |t|
  {
    if t != [] {
      PlainKeys(Key(e, t[0]), t[1..]);
      assert |e.line| < LINE ==> e.line + [t[0]] + t[1..] == e.line + t;
    }
  }

  // A backspace undoes a byte, up to the last but one that fits; on a full line it
  // takes one byte more.
  lemma BackspaceUndoes(e: Edit, c: byte)
    requires |e.line| < LINE && c != BACKSPACE
    ensures Keys(e, [c, BACKSPACE]).line == if |e.line| < LINE - 1 then e.line else e.line[..LINE - 2]
  {
    var k: seq<byte> := [c, BACKSPACE];
    assert k[1..] == [BACKSPACE] && k[1..][1..] == [];
    assert Keys(e, k) == Keys(Key(e, c), [BACKSPACE]) == Key(Key(e, c), BACKSPACE);
  }

  // ---- What the line buffer gets, wherever the cursor starts ----

  // The cursor is on the screen, at least as far from its start as the line is long;
  // x may be negative, as it is after backspacing over the left edge.
  ghost predicate Safe(s: Screen) {
    Sized(s) && 0 <= s.y < ROWS && s.x < COLS && s.tbuf <= COLS * s.y + s.x
  }

  ghost predicate Holds(s: Screen, line: seq<byte>) {
    Sized(s) && s.tflag && s.tbuf == |line| && s.tbuffer[..s.tbuf] == line
  }

  lemma DrawEdits(s: Screen, c: byte)
    requires Sized(s) && 0 <= s.y < ROWS && s.x < COLS && 0 <= COLS * s.y + s.x && s.tflag && s.tbuf < LINE
    ensures Drawable(s)
    ensures var d := Draw(s, c);
      && d.tflag && d.tbuf == s.tbuf + 1 && d.tbuffer == s.tbuffer[s.tbuf := c]
      && 0 <= d.y < ROWS && d.x < COLS
      && (if s.x == COLS - 1
          then d.x == 0 && d.y == (if s.y == ROWS - 1 then s.y else s.y + 1)
          else d.y == s.y && d.x == Rem(s.x + 1, COLS) >= s.x + 1)
      && d.frame == if s.x == COLS - 1 && s.y == ROWS - 1 then Scrolled(PutAt(s.frame, COLS * s.y + s.x, c))
                    else PutAt(s.frame, COLS * s.y + s.x, c)
  {
    hide PutAt, Scrolled;
  }

  lemma KeyEdits(s: Screen, e: Edit, c: byte)
    requires Safe(s) && Holds(s, e.line) && !Breaks(c)
    ensures CanPut(s, c) && Safe(Put(s, c)) && Holds(Put(s, c), Key(e, c).line)
  {
    hide Draw;
    var n := |e.line|;
    if c == BACKSPACE && 0 < n < LINE {
      DrawEdits(StepBack(s), SPACE);
    } else if c != BACKSPACE && n < LINE {
      DrawEdits(s, c);
    }
  }

  lemma {:induction false} KeysEdit(s: Screen, e: Edit, keys: seq<byte>)
    requires Safe(s) && Holds(s, e.line) && NoBreaks(keys)
    ensures CanPutAll(s, keys) && Safe(Puts(s, keys)) && Holds(Puts(s, keys), Keys(e, keys).line)
    decreases |keys|
  {
    hide Put, CanPut, Key;
    if keys != [] {
      KeyEdits(s, e, keys[0]);
      assert !Breaks(keys[0]) && NoBreaks(keys[1..]);
      KeysEdit(Put(s, keys[0]), Key(e, keys[0]), keys[1..]);
    }
  }

  // ---- What the screen shows, when the line starts in columns 0..32 ----

  // How often the screen has scrolled once a line from row y0, column x0 has been
  // `extent` bytes long.
  function Scrolls(y0: nat, x0: nat, extent: nat): nat {
    if y0 + (x0 + extent) / COLS < ROWS then 0 else y0 + (x0 + extent) / COLS - (ROWS - 1)
  }

  // Where the read began, on the screen as it was then.
  datatype Start = Start(frame: seq<byte>, x: nat, y: nat)

  ghost predicate Starts(st: Start) {
    |st.frame| == FRAME && st.x < COLS && st.y < ROWS
  }

  // The scrolls so far, the line's first row, and its first cell's linear position.
  ghost function Up(st: Start, e: Edit): nat { Scrolls(st.y, st.x, |e.line| + |e.tail|) }

  ghost function Base(st: Start, e: Edit): int { COLS * (st.y - Up(st, e)) + st.x }

  // The screen as it was, scrolled up, with the line and its tail written over it.
  ghost function Expected(st: Start, e: Edit, p: nat): byte
    requires Starts(st)
  {
    var b, n := Base(st, e), |e.line|;
    if b <= p < b + n then e.line[p - b]
    else if b + n <= p < b + n + |e.tail| then e.tail[p - b - n]
    else if p + COLS * Up(st, e) < CELLS then Cell(st.frame, p + COLS * Up(st, e))
    else SPACE
  }

  ghost predicate Displays(frame: seq<byte>, st: Start, e: Edit)
    requires Starts(st) && |frame| == FRAME
  {
    forall p {:trigger Cell(frame, p)} :: 0 <= p < CELLS ==> Cell(frame, p) == Expected(st, e, p)
  }

  // The row, counted from the line's first row, that the cursor is kept in.
  ghost function RowOf(s: Screen, st: Start, e: Edit): int { s.y - (st.y - Up(st, e)) }

  ghost predicate CursorAgrees(s: Screen, st: Start, e: Edit) {
    COLS * s.y + s.x == Base(st, e) + |e.line|
  }

  ghost predicate Echoes(s: Screen, st: Start, e: Edit) {
    && Starts(st) && Safe(s) && Holds(s, e.line) && |e.line| + |e.tail| <= LINE
    && CursorAgrees(s, st, e) && -COLS <= s.x
    && 0 <= RowOf(s, st, e) <= (st.x + |e.line| + |e.tail|) / COLS
    && (st.x <= 32 && RowOf(s, st, e) == 2 ==> st.x + |e.line| == 160)
    && Displays(s.frame, st, e)
  }

  // The start of a read echoes the empty line.
  lemma NothingTyped(s: Screen)
    requires Sized(s) && s.tflag && s.tbuf == 0 && 0 <= s.x < COLS && 0 <= s.y < ROWS
    ensures Echoes(s, Start(s.frame, s.x, s.y), Empty)
  {
  }

  // Writing the byte under the cursor, before any scroll.
  lemma TypedCells(frame: seq<byte>, st: Start, e: Edit, c: byte)
    requires Starts(st) && |frame| == FRAME && Displays(frame, st, e) && 0 <= Base(st, e) + |e.line| < CELLS
    requires |e.line| < LINE && c != BACKSPACE && Up(st, Key(e, c)) == Up(st, e)
    ensures Displays(PutAt(frame, Base(st, e) + |e.line|, c), st, Key(e, c))
  {
    hide PutAt;
    var q := Base(st, e) + |e.line|;
    forall p | 0 <= p < CELLS ensures Cell(PutAt(frame, q, c), p) == Expected(st, Key(e, c), p) {
      CellsAfterPut(frame, q, c, p);
      assert Cell(frame, p) == Expected(st, e, p);
    }
  }

  // The same when the byte fills the last row and the screen scrolls.
  lemma TypedCellsScroll(frame: seq<byte>, st: Start, e: Edit, c: byte)
    requires Starts(st) && |frame| == FRAME && Displays(frame, st, e)
    requires COLS <= Base(st, e) && Base(st, e) + |e.line| < CELLS
    requires |e.line| < LINE && c != BACKSPACE && e.tail == [] && Up(st, Key(e, c)) == Up(st, e) + 1
    ensures Displays(Scrolled(PutAt(frame, Base(st, e) + |e.line|, c)), st, Key(e, c))
  {
    hide PutAt, Scrolled;
    var q := Base(st, e) + |e.line|;
    var f := PutAt(frame, q, c);
    forall p | 0 <= p < CELLS ensures Cell(Scrolled(f), p) == Expected(st, Key(e, c), p) {
      CellsAfterScroll(f, p);
      if p + COLS < CELLS {
        CellsAfterPut(frame, q, c, p + COLS);
        assert Cell(frame, p + COLS) == Expected(st, e, p + COLS);
      }
    }
  }

  lemma ErasedCells(frame: seq<byte>, st: Start, e: Edit)
    requires Starts(st) && |frame| == FRAME && Displays(frame, st, e)
    requires 0 < |e.line| < LINE && 0 <= Base(st, e) && Base(st, e) + |e.line| <= CELLS
    ensures Displays(PutAt(frame, Base(st, e) + |e.line| - 1, SPACE), st, Key(e, BACKSPACE))
  {
    hide PutAt;
    var q := Base(st, e) + |e.line| - 1;
    forall p | 0 <= p < CELLS ensures Cell(PutAt(frame, q, SPACE), p) == Expected(st, Key(e, BACKSPACE), p) {
      CellsAfterPut(frame, q, SPACE, p);
      assert Cell(frame, p) == Expected(st, e, p);
    }
  }

  // The screen scrolls exactly when the line reaches a new row below the last one.
  lemma TypedRows(s: Screen, st: Start, e: Edit, c: byte)
    requires Echoes(s, st, e) && c != BACKSPACE && |e.line| < LINE
    ensures if s.x == COLS - 1 && s.y == ROWS - 1
      then e.tail == [] && Up(st, Key(e, c)) == Up(st, e) + 1 && COLS <= Base(st, e)
      else Up(st, Key(e, c)) == Up(st, e)
    ensures s.x == COLS - 1 ==> RowOf(s, st, e) + 1 <= (st.x + |Key(e, c).line| + |Key(e, c).tail|) / COLS
  {
    hide Displays, Holds;
  }

  lemma TypeEchoes(s: Screen, st: Start, e: Edit, c: byte)
    requires Echoes(s, st, e) && !Breaks(c) && c != BACKSPACE && |e.line| < LINE
    ensures CanPut(s, c) && Echoes(Put(s, c), st, Key(e, c))
  {
    hide Draw, PutAt, Scrolled, Displays, Scrolls;
    KeyEdits(s, e, c);
    DrawEdits(s, c);
    TypedRows(s, st, e, c);
    if s.x == COLS - 1 && s.y == ROWS - 1 {
      TypedCellsScroll(s.frame, st, e, c);
    } else {
      TypedCells(s.frame, st, e, c);
    }
  }

  // A backspace goes wrong only where x has already run down to -80.
  lemma BackspaceEchoes(s: Screen, st: Start, e: Edit)
    requires Echoes(s, st, e) && (0 < |e.line| < LINE ==> s.x > -COLS)
    ensures CanPut(s, BACKSPACE) && Echoes(Put(s, BACKSPACE), st, Key(e, BACKSPACE))
    ensures 0 < |e.line| < LINE ==> Put(s, BACKSPACE).y == s.y
  {
    hide Draw, PutAt, Scrolled, Displays, Scrolls;
    KeyEdits(s, e, BACKSPACE);
    var n := |e.line|;
    if 0 < n < LINE {
      DrawEdits(StepBack(s), SPACE);
      ErasedCells(s.frame, st, e);
    } else if n == LINE {
      FullBackspaceCells(s.frame, st, e);
    }
  }

  lemma FullBackspaceCells(frame: seq<byte>, st: Start, e: Edit)
    requires Starts(st) && |frame| == FRAME && Displays(frame, st, e) && |e.line| == LINE
    ensures Displays(frame, st, Key(e, BACKSPACE))
  {
    forall p | 0 <= p < CELLS ensures Cell(frame, p) == Expected(st, Key(e, BACKSPACE), p) {
      assert Cell(frame, p) == Expected(st, e, p);
    }
  }

  lemma KeyEchoes(s: Screen, st: Start, e: Edit, c: byte)
    requires Echoes(s, st, e) && !Breaks(c) && st.x <= 32
    ensures CanPut(s, c) && Echoes(Put(s, c), st, Key(e, c))
  {
    if c == BACKSPACE {
      BackspaceEchoes(s, st, e);
    } else if |e.line| < LINE {
      TypeEchoes(s, st, e, c);
    }
  }

  // The main result about the echo: after any keys, from a start in columns 0..32,
  // the cursor is behind the line, and every cell of the screen is accounted for.
  lemma {:induction false} KeysEcho(s: Screen, st: Start, e: Edit, keys: seq<byte>)
    requires Echoes(s, st, e) && NoBreaks(keys) && st.x <= 32
    ensures CanPutAll(s, keys) && Echoes(Puts(s, keys), st, Keys(e, keys))
    decreases |keys|
  {
    hide Put, CanPut, Key, Displays, Scrolls, CursorAgrees;
    if keys != [] {
      KeyEchoes(s, st, e, keys[0]);
      assert NoBreaks(keys[1..]);
      KeysEcho(Put(s, keys[0]), st, Key(e, keys[0]), keys[1..]);
    }
  }

  // ---- When nothing but the line is left on the screen ----

  ghost predicate Blank(t: seq<byte>) {
    forall i {:trigger t[i]} :: 0 <= i < |t| ==> t[i] == SPACE
  }

  // Backspace on a full line whose last two bytes can be seen.
  ghost predicate LeavesBytes(e: Edit, c: byte) {
    c == BACKSPACE && |e.line| == LINE && !(e.line[LINE - 2] == SPACE && e.line[LINE - 1] == SPACE)
  }

  // The exact condition, key by key.
  lemma TailIsBlankIff(e: Edit, c: byte)
    requires |e.line| <= LINE && Blank(e.tail)
    ensures Blank(Key(e, c).tail) <==> !LeavesBytes(e, c)
  {
    var t := Key(e, c).tail;
    if c == BACKSPACE && |e.line| == LINE {
      assert t[0] == e.line[LINE - 2] && t[1] == e.line[LINE - 1];
      assert forall i {:trigger t[i]} :: 2 <= i < |t| ==> t[i] == e.tail[i - 2];
    } else if c == BACKSPACE && e.line != [] {
      assert forall i {:trigger t[i]} :: 1 <= i < |t| ==> t[i] == e.tail[i - 1];
    } else if c != BACKSPACE && |e.line| < LINE && e.tail != [] {
      assert forall i {:trigger t[i]} :: 0 <= i < |t| ==> t[i] == e.tail[i + 1];
    }
  }

  ghost predicate NeverLeavesBytes(e: Edit, keys: seq<byte>)
    requires |e.line| <= LINE
    decreases |keys|
  {
    keys == [] || (!LeavesBytes(e, keys[0]) && NeverLeavesBytes(Key(e, keys[0]), keys[1..]))
  }

  // The tail stays blank all the way exactly when no key leaves bytes behind.
  ghost predicate BlankAllTheWay(e: Edit, keys: seq<byte>)
    requires |e.line| <= LINE
    decreases |keys|
  {
    Blank(e.tail) && (keys == [] || BlankAllTheWay(Key(e, keys[0]), keys[1..]))
  }

  lemma {:induction false} TailStaysBlankIff(e: Edit, keys: seq<byte>)
    requires |e.line| <= LINE && Blank(e.tail)
    ensures BlankAllTheWay(e, keys) <==> NeverLeavesBytes(e, keys)
    ensures NeverLeavesBytes(e, keys) ==> Blank(Keys(e, keys).tail)
    decreases |keys|
  {
    hide Key, LeavesBytes, Blank;
    if keys != [] {
      var f := Key(e, keys[0]);
      TailIsBlankIff(e, keys[0]);
      if Blank(f.tail) { TailStaysBlankIff(f, keys[1..]); }
    }
  }

  // ---- Why the start column matters ----

  ghost predicate CursorWorks(s: Screen, st: Start, keys: seq<byte>) {
    CanPutAll(s, keys) && CursorAgrees(Puts(s, keys), st, Keys(Empty, keys))
  }

  ghost function Many(c: byte, n: nat): (t: seq<byte>)
    ensures |t| == n
  {
    if n == 0 then [] else [c] + Many(c, n - 1)
  }

  // The Echoes relation, for every start column, along n plain characters ...
  lemma {:induction false} TypingEchoes(s: Screen, st: Start, e: Edit, c: byte, n: nat)
    requires Echoes(s, st, e) && e.tail == [] && !Breaks(c) && c != BACKSPACE && |e.line| + n < LINE
    ensures CanPutAll(s, Many(c, n))
    ensures var r := Keys(e, Many(c, n));
      Echoes(Puts(s, Many(c, n)), st, r) && r.tail == [] && |r.line| == |e.line| + n
    decreases n
  {
    hide Displays, Scrolls, Put, CanPut;
    if n > 0 {
      TypeEchoes(s, st, e, c);
      assert Many(c, n)[0] == c && Many(c, n)[1..] == Many(c, n - 1);
      TypingEchoes(Put(s, c), st, Key(e, c), c, n - 1);
    }
  }

  // ... and along n backspaces, which stay in one row, with x going down to -80.
  lemma {:induction false} ErasingEchoes(s: Screen, st: Start, e: Edit, n: nat)
    requires Echoes(s, st, e) && n <= |e.line| < LINE && s.x - n >= -COLS
    ensures CanPutAll(s, Many(BACKSPACE, n))
    ensures var t, r := Puts(s, Many(BACKSPACE, n)), Keys(e, Many(BACKSPACE, n));
      Echoes(t, st, r) && t.y == s.y && t.x == s.x - n && |r.line| == |e.line| - n
    decreases n
  {
    hide Displays, Scrolls, Put, CanPut;
    if n > 0 {
      BackspaceEchoes(s, st, e);
      var b := Many(BACKSPACE, n);
      assert b[0] == BACKSPACE && b[1..] == Many(BACKSPACE, n - 1);
      SameStart(e);
      ErasingEchoes(Put(s, BACKSPACE), st, Key(e, BACKSPACE), n - 1);
    }
  }

  // A plain backspace keeps how far the line has ever reached.
  lemma SameStart(e: Edit)
    requires 0 < |e.line| < LINE
    ensures var r := Key(e, BACKSPACE);
      |r.line| + |r.tail| == |e.line| + |e.tail| && |r.line| == |e.line| - 1
  {
  }

  lemma {:induction false} PutsAppend(s: Screen, a: seq<byte>, b: seq<byte>)
    requires CanPutAll(s, a) && CanPutAll(Puts(s, a), b)
    ensures CanPutAll(s, a + b) && Puts(s, a + b) == Puts(Puts(s, a), b)
    decreases |a|
  {
    hide Put, CanPut;
    if a == [] {
      assert a + b == b;
    } else {
      assert (a + b)[1..] == a[1..] + b;
      PutsAppend(Put(s, a[0]), a[1..], b);
    }
  }

  lemma {:induction false} KeysAppend(e: Edit, a: seq<byte>, b: seq<byte>)
    requires |e.line| <= LINE
    ensures Keys(e, a + b) == Keys(Keys(e, a), b)
    decreases |a|
  {
    hide Key;
    if a == [] {
      assert a + b == b;
    } else {
      assert (a + b)[1..] == a[1..] + b;
      KeysAppend(Key(e, a[0]), a[1..], b);
    }
  }

  // At x == -80 the truncated remainder sends x to 0 in the same row, one row too far.
  lemma BackspaceJumps(s: Screen, st: Start, e: Edit)
    requires Echoes(s, st, e) && 0 < |e.line| < LINE && s.x == -COLS
    ensures CanPutAll(s, [BACKSPACE]) && !CursorAgrees(Puts(s, [BACKSPACE]), st, Keys(e, [BACKSPACE]))
  {
    hide PutAt, Scrolled, Displays, Scrolls, Draw;
    KeyEdits(s, e, BACKSPACE);
    DrawEdits(StepBack(s), SPACE);
    assert Put(s, BACKSPACE).x == -1 && Put(s, BACKSPACE).y == s.y;
    var b: seq<byte> := [BACKSPACE];
    assert b[1..] == [];
    assert Puts(s, b) == Put(s, BACKSPACE);
    assert Keys(e, b) == Key(e, BACKSPACE);
    SameStart(e);
  }

  const LETTER: byte := 97

  // From a start right of column 32, type into the third row, and take it all back
  // to the end of the first: the cursor ends one row below where it should be.
  lemma LateStartFails(s: Screen, st: Start)
    requires Sized(s) && s.tflag && s.tbuf == 0 && 32 < s.x < COLS && 0 <= s.y < ROWS
    requires st == Start(s.frame, s.x, s.y)
    ensures var keys := Many(LETTER, 160 - s.x) + Many(BACKSPACE, 80) + [BACKSPACE];
      NoBreaks(keys) && CanPutAll(s, keys) && !CursorAgrees(Puts(s, keys), st, Keys(Empty, keys))
  {
    hide Displays, Puts, CanPutAll, Keys, Many;
    var a, b, c := Many(LETTER, 160 - s.x), Many(BACKSPACE, 80), [BACKSPACE];
    NothingTyped(s);
    TypingEchoes(s, st, Empty, LETTER, 160 - s.x);
    var t, e := Puts(s, a), Keys(Empty, a);
    assert t.x == 0;
    ErasingEchoes(t, st, e, 80);
    var u, g := Puts(t, b), Keys(e, b);
    assert u.x == -80;
    BackspaceJumps(u, st, g);
    PutsAppend(s, a, b);
    PutsAppend(s, a + b, c);
    KeysAppend(Empty, a, b);
    KeysAppend(Empty, a + b, c);
    ManyIsPlain(LETTER, 160 - s.x);
    ManyIsPlain(BACKSPACE, 80);
  }

  lemma {:induction false} ManyIsPlain(c: byte, n: nat)
    requires !Breaks(c)
    ensures NoBreaks(Many(c, n))
  {
    if n > 0 { ManyIsPlain(c, n - 1); }
  }

  lemma {:induction false} ManyKeys(e: Edit, c: byte, n: nat)
    requires |e.line| + n <= LINE && e.tail == [] && c != BACKSPACE
    ensures Keys(e, Many(c, n)) == Edit(e.line + Many(c, n), [])
    decreases n
  {
    if n > 0 {
      assert Many(c, n)[1..] == Many(c, n - 1);
      ManyKeys(Key(e, c), c, n - 1);
      assert e.line + [c] + Many(c, n - 1) == e.line + Many(c, n);
    } else {
      assert e.line + Many(c, 0) == e.line;
    }
  }

  lemma {:induction false} ManyAt(c: byte, n: nat, i: nat)
    requires i < n
    ensures Many(c, n)[i] == c
  {
    if i > 0 { ManyAt(c, n - 1, i - 1); }
  }

  // 128 letters and a backspace: the line has 126, and two letters still stand on
  // the screen behind the cursor.
  lemma FullBackspaceLeavesTwo(s: Screen)
    requires Sized(s) && s.tflag && s.tbuf == 0 && 0 <= s.x <= 32 && 0 <= s.y < ROWS
    ensures var keys := Many(LETTER, LINE) + [BACKSPACE];
      && CanPutAll(s, keys)
      && var t := Puts(s, keys);
         && t.tbuf == 126 && t.tbuffer[..126] == Many(LETTER, LINE)[..126]
         && 0 <= COLS * t.y + t.x && COLS * t.y + t.x + 1 < CELLS && |t.frame| == FRAME
         && Cell(t.frame, COLS * t.y + t.x) == LETTER && Cell(t.frame, COLS * t.y + t.x + 1) == LETTER
  {
    hide Displays, Scrolls, Puts, CanPutAll, Keys, Many;
    var a, b: seq<byte> := Many(LETTER, LINE), [BACKSPACE];
    var st := Start(s.frame, s.x, s.y);
    NothingTyped(s);
    ManyIsPlain(LETTER, LINE);
    KeysEcho(s, st, Empty, a + b);
    KeysAppend(Empty, a, b);
    ManyKeys(Empty, LETTER, LINE);
    assert [] + a == a;
    LineAndTail(a);
    ManyAt(LETTER, LINE, 126);
    ManyAt(LETTER, LINE, 127);
    TailCells(Puts(s, a + b), st, Keys(Empty, a + b));
  }

  lemma LineAndTail(a: seq<byte>)
    requires |a| == LINE
    ensures Keys(Edit(a, []), [BACKSPACE]) == Edit(a[..126], a[126..])
  {
    var b: seq<byte> := [BACKSPACE];
    assert b[1..] == [];
    assert a[126..] + [] == a[126..];
  }

  // What a two-byte tail looks like on the screen.
  lemma TailCells(t: Screen, st: Start, e: Edit)
    requires Echoes(t, st, e) && |e.line| == 126 && |e.tail| == 2 && st.x <= 32
    ensures 0 <= COLS * t.y + t.x && COLS * t.y + t.x + 1 < CELLS
    ensures Cell(t.frame, COLS * t.y + t.x) == e.tail[0] && Cell(t.frame, COLS * t.y + t.x + 1) == e.tail[1]
  {
    var q := COLS * t.y + t.x;
    assert Expected(st, e, q) == e.tail[0] && Expected(st, e, q + 1) == e.tail[1];
  }

  // The exact condition on the start column.
  lemma CursorWorksIffEarlyStart(s: Screen)
    requires Sized(s) && s.tflag && s.tbuf == 0 && 0 <= s.x < COLS && 0 <= s.y < ROWS
    ensures s.x <= 32 <==>
      forall keys :: NoBreaks(keys) ==> CursorWorks(s, Start(s.frame, s.x, s.y), keys)
  {
    var st := Start(s.frame, s.x, s.y);
    if s.x <= 32 {
      forall keys | NoBreaks(keys) ensures CursorWorks(s, st, keys) {
        NothingTyped(s);
        KeysEcho(s, st, Empty, keys);
      }
    } else {
      LateStartFails(s, st);
      var keys := Many(LETTER, 160 - s.x) + Many(BACKSPACE, 80) + [BACKSPACE];
      assert NoBreaks(keys) && !CursorWorks(s, st, keys);
    }
  }

  // ---- terminal_read ----

  // The line a read delivers: a full line loses its last byte.
  ghost function Delivered(line: seq<byte>): (r: seq<byte>)
    requires |line| <= LINE
    ensures |r| == (if |line| < LINE then |line| else LINE - 1) && r == line[..|r|]
  {
    if |line| == LINE then line[..LINE - 1] else line
  }

  lemma {:induction false} FirstLineEnds(text: seq<byte>)
    ensures NoBreaks(text[..FirstLine(text)])
    ensures FirstLine(text) < |text| ==> Breaks(text[FirstLine(text)])
  {
    if text != [] && !Breaks(text[0]) {
      FirstLineEnds(text[1..]);
      var k := FirstLine(text);
      assert forall i :: 1 <= i < k ==> text[..k][i] == text[1..][..k - 1][i - 1];
    }
  }

  lemma OneMoreKey(s: Screen, keys: seq<byte>, i: nat)
    requires i < |keys| && CanPutAll(s, keys[..i]) && CanPut(Puts(s, keys[..i]), keys[i])
    requires 0 <= Put(Puts(s, keys[..i]), keys[i]).y < ROWS
    ensures CanPutAll(s, keys[..i + 1]) && Puts(s, keys[..i + 1]) == Put(Puts(s, keys[..i]), keys[i])
  {
    hide Put, CanPut;
    var t := Puts(s, keys[..i]);
    assert [keys[i]][1..] == [];
    assert CanPutAll(t, [keys[i]]) && Puts(t, [keys[i]]) == Put(t, keys[i]);
    PutsAppend(s, keys[..i], [keys[i]]);
    assert keys[..i] + [keys[i]] == keys[..i + 1];
  }

  lemma BreakKeepsLine(s: Screen, e: Edit, c: byte)
    requires Safe(s) && Holds(s, e.line) && Breaks(c)
    ensures CanPut(s, c) && 0 <= Put(s, c).y < ROWS && !Put(s, c).tflag
    ensures Put(s, c).tbuf == |e.line| && Put(s, c).tbuffer == s.tbuffer
  {
  }

  // The wait: every key goes through putc until a line break clears the flag.
  method ReadKeys(d: Display, keys: seq<byte>) returns (used: nat)
    requires d.Valid() && 0 <= d.screen_y < ROWS && d.screen_x < COLS && 0 <= COLS * d.screen_y + d.screen_x
    requires FirstLine(keys) < |keys|
    modifies d, d.mem, d.tbuffer
    ensures d.Valid() && used == FirstLine(keys) + 1 && !d.tflag
    ensures var line := Keys(Empty, keys[..used - 1]).line;
      d.tbuf == |line| && d.tbuffer[..d.tbuf] == line
    ensures var s := old(d.View()).(tbuf := 0, tflag := true);
      CanPutAll(s, keys[..used]) && d.View() == Puts(s, keys[..used])
  {
    hide Put, CanPut, Keys, FirstLine;
    d.tbuf := 0;
    d.tflag := true;
    ghost var s, k := d.View(), FirstLine(keys);
    FirstLineEnds(keys);
    KeysEdit(s, Empty, keys[..0]);
    used := 0;
    while d.tflag
      invariant d.Valid() && used <= (if d.tflag then k else k + 1)
      invariant CanPutAll(s, keys[..used]) && d.View() == Puts(s, keys[..used])
      invariant !d.tflag ==> used == k + 1
      invariant !d.tflag ==>
        d.tbuf == |Keys(Empty, keys[..k]).line| && d.tbuffer[..d.tbuf] == Keys(Empty, keys[..k]).line
      decreases d.tflag, k - used
    {
      assert NoBreaks(keys[..used]) by { assert keys[..used] == keys[..k][..used]; }
      KeysEdit(s, Empty, keys[..used]);
      if used < k {
        assert keys[used] == keys[..k][used];
        KeyEdits(d.View(), Keys(Empty, keys[..used]), keys[used]);
      } else {
        BreakKeepsLine(d.View(), Keys(Empty, keys[..used]), keys[used]);
      }
      OneMoreKey(s, keys, used);
      d.PutC(keys[used]);
      used := used + 1;
    }
  }

  // Hands the collected line over.
  method CopyLine(d: Display, buf: array<byte>, n: nat, ghost whole: seq<byte>) returns (r: nat)
    requires d.Valid() && d.tbuf == |whole| && d.tbuffer[..d.tbuf] == whole
    requires buf.Length >= LINE_BUF && buf.Length > n && buf != d.mem && buf != d.tbuffer
    modifies d`tbuf, d.tbuffer, buf
    ensures d.Valid()
    ensures var line := Delivered(whole);
      && d.tbuf == |line|
      && (if |line| > n then r == n && buf[..n] == line[..n] && buf[n] == NEWLINE
          else r == |line| + 1 && buf[..r] == line + [NEWLINE])
    ensures forall k {:trigger buf[k]} :: (if d.tbuf > n then n else d.tbuf) < k < LINE_BUF ==> buf[k] == NUL
    ensures forall k {:trigger buf[k]} :: LINE_BUF <= k < buf.Length ==> buf[k] == old(buf[k])
  {
    ghost var line := Delivered(whole);
    Zero(buf);
    if d.tbuf < 128 {
      d.tbuffer[d.tbuf] := NEWLINE;
    } else {
      d.tbuffer[128] := NEWLINE;
      d.tbuf := 127;
    }
    assert d.tbuffer[..d.tbuf] == line;
    if d.tbuf > n {
      CopyBytes(d.tbuffer, buf, n);
      buf[n] := NEWLINE;
      assert buf[..n] == d.tbuffer[..d.tbuf][..n];
      return n;
    }
    CopyBytes(d.tbuffer, buf, d.tbuf);
    buf[d.tbuf] := NEWLINE;
    assert buf[..d.tbuf] == line;
    return d.tbuf + 1;
  }

  method Zero(buf: array<byte>)
    requires buf.Length >= LINE_BUF
    modifies buf
    ensures forall k {:trigger buf[k]} :: 0 <= k < buf.Length ==> buf[k] == if k < LINE_BUF then NUL else old(buf[k])
  {
    var i := 0;
    while i < 129
      invariant 0 <= i <= 129
      invariant forall k {:trigger buf[k]} :: 0 <= k < i ==> buf[k] == NUL
      invariant forall k {:trigger buf[k]} :: i <= k < buf.Length ==> buf[k] == old(buf[k])
    {
      buf[i] := NUL;
      i := i + 1;
    }
  }

  method CopyBytes(src: array<byte>, buf: array<byte>, n: nat)
    requires n <= src.Length && n <= buf.Length && src != buf
    modifies buf
    ensures forall k {:trigger buf[k]} :: 0 <= k < buf.Length ==> buf[k] == if k < n then src[k] else old(buf[k])
  {
    var i := 0;
    while i < n
      invariant 0 <= i <= n
      invariant forall k {:trigger buf[k]} :: 0 <= k < i ==> buf[k] == src[k]
      invariant forall k {:trigger buf[k]} :: i <= k < buf.Length ==> buf[k] == old(buf[k])
    {
      buf[i] := src[i];
      i := i + 1;
    }
  }

  // Waits for a line.  The interrupts that deliver the keys are the loop's body.
  method TerminalRead(d: Display, keys: seq<byte>, buf: array<byte>, n: nat) returns (r: nat, used: nat)
    requires d.Valid() && 0 <= d.screen_y < ROWS && d.screen_x < COLS && 0 <= COLS * d.screen_y + d.screen_x
    requires FirstLine(keys) < |keys|
    requires buf.Length >= LINE_BUF && buf.Length > n && buf != d.mem && buf != d.tbuffer
    modifies d, d.mem, d.tbuffer, buf
    ensures d.Valid() && used == FirstLine(keys) + 1 && !d.tflag
    ensures var line := Delivered(Keys(Empty, keys[..used - 1]).line);
      && d.tbuf == |line|
      && (if |line| > n then r == n && buf[..n] == line[..n] && buf[n] == NEWLINE
          else r == |line| + 1 && buf[..r] == line + [NEWLINE])
    ensures forall k {:trigger buf[k]} :: (if d.tbuf > n then n else d.tbuf) < k < LINE_BUF ==> buf[k] == NUL
    ensures forall k {:trigger buf[k]} :: LINE_BUF <= k < buf.Length ==> buf[k] == old(buf[k])
    ensures var s := old(d.View()).(tbuf := 0, tflag := true);
      && CanPutAll(s, keys[..used])
      && d.View() == Puts(s, keys[..used]).(tbuf := d.tbuf, tbuffer := d.tbuffer[..])
  {
    hide Delivered, Keys, Puts, CanPutAll, FirstLine;
    used := ReadKeys(d, keys);
    r := CopyLine(d, buf, n, Keys(Empty, keys[..used - 1]).line);
  }
}
