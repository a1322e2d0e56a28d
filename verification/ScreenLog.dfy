// The screen is a window on an unbounded log: what putc shows are the last 25
// rows of everything printed, wrapped at 80 columns.
module ScreenLog {
  import opened CString
  import opened Console

  type Rows = seq<seq<byte>>

  // ---- Wrapping a text into rows ----

  ghost function AddByte(rows: Rows, c: byte): (r: Rows)
    requires rows != []
    ensures r != []
  {
    var n := |rows| - 1;
    if Breaks(c) then rows + [[]]
    else if |rows[n]| + 1 == COLS then rows[..n] + [rows[n] + [c]] + [[]]
    else rows[..n] + [rows[n] + [c]]
  }

  ghost function WrapFrom(rows: Rows, text: seq<byte>): (r: Rows)
    requires rows != []
    ensures r != []
    decreases |text|
  {
    if text == [] then rows else WrapFrom(AddByte(rows, text[0]), text[1..])
  }

  // The text wrapped at 80 columns; a row that fills up is followed by a new one.
  ghost function Wrap(text: seq<byte>): (r: Rows)
    ensures r != []
  {
    WrapFrom([[]], text)
  }

  lemma {:induction false} WrapFromAppends(rows: Rows, t: seq<byte>, u: seq<byte>)
    requires rows != []
    ensures WrapFrom(rows, t + u) == WrapFrom(WrapFrom(rows, t), u)
    decreases |t|
  {
    if t == [] {
      assert t + u == u;
    } else {
      assert (t + u)[1..] == t[1..] + u;
      WrapFromAppends(AddByte(rows, t[0]), t[1..], u);
    }
  }

  // ---- Wrap and its inverse: what the rows mean ----

  // Rows as the wrapping produces them: none is wider than the screen, and none
  // holds a line break.
  ghost predicate Wrapped(rows: Rows) {
    rows != [] && forall i {:trigger rows[i]} :: 0 <= i < |rows| ==>
      |rows[i]| <= COLS && forall j :: 0 <= j < |rows[i]| ==> !Breaks(rows[i][j])
  }

  // The text of the rows: a full row runs on, any other one ends in a line break.
  ghost function Text(rows: Rows): seq<byte>
    requires rows != []
  {
    var n := |rows| - 1;
    if n == 0 then rows[0]
    else Text(rows[..n]) + (if |rows[n - 1]| == COLS then [] else [NEWLINE]) + rows[n]
  }

  // A text with its carriage returns as newlines, which is how putc takes them.
  ghost function Newlines(t: seq<byte>): (r: seq<byte>)
    ensures |r| == |t|
  {
    seq(|t|, i requires 0 <= i < |t| => if Breaks(t[i]) then NEWLINE else t[i])
  }

  lemma AddByteWraps(rows: Rows, c: byte)
    requires Wrapped(rows) && |rows[|rows| - 1]| < COLS
    ensures Wrapped(AddByte(rows, c)) && |AddByte(rows, c)[|AddByte(rows, c)| - 1]| < COLS
  {
  }

  lemma AddByteText(rows: Rows, c: byte)
    requires Wrapped(rows) && |rows[|rows| - 1]| < COLS
    ensures Wrapped(AddByte(rows, c)) && |AddByte(rows, c)[|AddByte(rows, c)| - 1]| < COLS
    ensures Text(AddByte(rows, c)) == Text(rows) + [if Breaks(c) then NEWLINE else c]
  {
    AddByteWraps(rows, c);
    hide Wrapped;
    var n, r := |rows| - 1, AddByte(rows, c);
    if Breaks(c) {
      assert r[..|r| - 1] == rows;
    } else {
      var wider := rows[..n] + [rows[n] + [c]];
      assert wider[..n] == rows[..n];
      assert Text(wider) == Text(rows) + [c] by {
        if n > 0 {
          var head := Text(rows[..n]) + (if |rows[n - 1]| == COLS then [] else [NEWLINE]);
          assert head + (rows[n] + [c]) == (head + rows[n]) + [c];
        }
      }
      if |rows[n]| + 1 == COLS {
        assert r[..|r| - 1] == wider;
        assert Text(r) == Text(wider) + [] + [];
      }
    }
  }

  // Unwrapping what was wrapped gives the text back, byte for byte.
  lemma {:induction false} WrapThenText(rows: Rows, t: seq<byte>)
    requires Wrapped(rows) && |rows[|rows| - 1]| < COLS
    ensures Wrapped(WrapFrom(rows, t)) && |WrapFrom(rows, t)[|WrapFrom(rows, t)| - 1]| < COLS
    ensures Text(WrapFrom(rows, t)) == Text(rows) + Newlines(t)
    decreases |t|
  {
    hide Text, AddByte;
    if t != [] {
      AddByteText(rows, t[0]);
      WrapThenText(AddByte(rows, t[0]), t[1..]);
      assert Newlines(t) == [if Breaks(t[0]) then NEWLINE else t[0]] + Newlines(t[1..]);
    }
  }

  // Adding a break-free run of bytes to the last row.
  lemma {:induction false} WrapFromRow(rows: Rows, t: seq<byte>)
    requires rows != [] && |rows[|rows| - 1]| + |t| <= COLS && |rows[|rows| - 1]| < COLS
    requires forall j :: 0 <= j < |t| ==> !Breaks(t[j])
    ensures var n := |rows| - 1; var wider := rows[..n] + [rows[n] + t];
      WrapFrom(rows, t) == if |rows[n] + t| == COLS then wider + [[]] else wider
    decreases |t|
  {
    var n := |rows| - 1;
    if t == [] {
      assert rows[n] + t == rows[n];
      assert rows[..n] + [rows[n]] == rows;
    } else {
      var r := AddByte(rows, t[0]);
      assert rows[n] + t == (rows[n] + [t[0]]) + t[1..];
      if |t| > 1 {
        WrapFromRow(r, t[1..]);
        assert r[..n] == rows[..n];
      } else {
        assert t == [t[0]];
        assert WrapFrom(r, t[1..]) == r;
      }
    }
  }

  // And wrapping the text of rows gives those rows: Wrap and Text are inverses,
  // so Wrap is the only layout with rows of at most 80 that has the text.
  lemma {:induction false} TextThenWrap(rows: Rows)
    requires Wrapped(rows)
    ensures Wrap(Text(rows)) == if |rows[|rows| - 1]| == COLS then rows + [[]] else rows
    decreases |rows|
  {
    var n := |rows| - 1;
    if n == 0 {
      WrapFromRow([[]], rows[0]);
      assert [] + rows[0] == rows[0];
      assert rows == [rows[0]];
    } else {
      var init := rows[..n];
      assert forall i :: 0 <= i < n ==> init[i] == rows[i];
      TextThenWrap(init);
      AppendRow(init, rows[n]);
      assert init + [rows[n]] == rows;
    }
  }

  lemma AppendRow(init: Rows, row: seq<byte>)
    requires Wrapped(init) && |row| <= COLS && forall j :: 0 <= j < |row| ==> !Breaks(row[j])
    requires Wrap(Text(init)) == if |init[|init| - 1]| == COLS then init + [[]] else init
    ensures Wrap(Text(init + [row])) == if |row| == COLS then init + [row] + [[]] else init + [row]
  {
    var sep: seq<byte> := if |init[|init| - 1]| == COLS then [] else [NEWLINE];
    var open := init + [[]];
    assert (init + [row])[..|init|] == init;
    assert Text(init + [row]) == Text(init) + sep + row;
    hide Text;
    WrapFromAppends([[]], Text(init), sep);
    WrapFromAppends([[]], Text(init) + sep, row);
    assert sep != [] ==> WrapFrom(init, sep) == AddByte(init, NEWLINE);
    WrapFromRow(open, row);
    assert open[..|init|] == init && [] + row == row;
  }

  // ---- The window ----

  ghost function Top(rows: Rows): nat {
    if |rows| <= ROWS then 0 else |rows| - ROWS
  }

  // What stands at row r and column c of a window whose first row is `top`:
  // blank right of a row's end and below the last row.
  ghost function At(rows: Rows, top: nat, r: nat, c: nat): byte {
    if top + r < |rows| && c < |rows[top + r]| then rows[top + r][c] else SPACE
  }

  ghost predicate Window(frame: seq<byte>, rows: Rows, top: nat)
    requires |frame| == FRAME
  {
    forall r, c {:trigger At(rows, top, r, c)} :: 0 <= r < ROWS && 0 <= c < COLS ==>
      Cell(frame, COLS * r + c) == At(rows, top, r, c)
  }

  // The screen shows the last 25 rows and has the cursor behind the last byte.
  ghost predicate Shows(s: Screen, rows: Rows) {
    && Sized(s) && Wrapped(rows) && |rows[|rows| - 1]| < COLS
    && s.y == |rows| - 1 - Top(rows)
    && s.x == |rows[|rows| - 1]|
    && Window(s.frame, rows, Top(rows))
  }

  lemma ClearedShowsNothing(s: Screen)
    requires Sized(s) && s.frame == Cleared() && s.x == 0 && s.y == 0
    ensures Shows(s, Wrap([]))
  {
  }

  lemma ScrolledWindow(frame: seq<byte>, rows: Rows, top: nat)
    requires |frame| == FRAME && Window(frame, rows, top) && |rows| == top + ROWS
    ensures Window(Scrolled(frame), rows + [[]], top + 1)
  {
    hide Scrolled;
    var rows1, top1 := rows + [[]], top + 1;
    forall r, c | 0 <= r < ROWS && 0 <= c < COLS
      ensures Cell(Scrolled(frame), COLS * r + c) == At(rows1, top1, r, c)
    {
      CellsAfterScroll(frame, COLS * r + c);
      if r + 1 < ROWS {
        assert COLS * r + c + COLS == COLS * (r + 1) + c;
        assert At(rows, top, r + 1, c) == Cell(frame, COLS * (r + 1) + c);
      }
    }
  }

  // Opening a new row below the last one, scrolling if the screen is full.
  lemma NextRowShows(s: Screen, rows: Rows)
    requires Sized(s) && Wrapped(rows) && s.y == |rows| - 1 - Top(rows)
    requires Window(s.frame, rows, Top(rows))
    ensures Shows(NextRow(s), rows + [[]])
  {
    hide Scrolled;
    if |rows| < ROWS {
      assert forall r: nat, c: nat :: At(rows + [[]], 0, r, c) == At(rows, 0, r, c);
    } else {
      ScrolledWindow(s.frame, rows, Top(rows));
    }
  }

  lemma DrawnWindow(frame: seq<byte>, rows: Rows, top: nat, c: byte)
    requires |frame| == FRAME && rows != [] && Window(frame, rows, top)
    requires top < |rows| <= top + ROWS && |rows[|rows| - 1]| < COLS
    ensures var n := |rows| - 1;
      Window(PutAt(frame, COLS * (n - top) + |rows[n]|, c), rows[..n] + [rows[n] + [c]], top)
  {
    hide PutAt;
    var n := |rows| - 1;
    var wider, p := rows[..n] + [rows[n] + [c]], COLS * (n - top) + |rows[n]|;
    forall r, k | 0 <= r < ROWS && 0 <= k < COLS
      ensures Cell(PutAt(frame, p, c), COLS * r + k) == At(wider, top, r, k)
    {
      CellsAfterPut(frame, p, c, COLS * r + k);
      assert At(rows, top, r, k) == Cell(frame, COLS * r + k);
    }
  }

  // Drawing with the cursor on the screen.
  lemma DrawnCursor(s: Screen, c: byte)
    requires Sized(s) && 0 <= s.x < COLS && 0 <= s.y < ROWS
    ensures var s1 := s.(frame := PutAt(s.frame, COLS * s.y + s.x, c), x := s.x + 1);
      var s2 := if s1.x >= COLS then NextRow(s1) else s1;
      Draw(s, c).frame == s2.frame && Draw(s, c).x == s2.x && Draw(s, c).y == s2.y
  {
  }

  // One byte that is not a backspace and not dropped extends the log by itself.
  lemma PutShows(s: Screen, rows: Rows, c: byte)
    requires Shows(s, rows) && c != BACKSPACE && (Breaks(c) || s.tbuf != LINE)
    ensures CanPut(s, c) && Shows(Put(s, c), AddByte(rows, c))
  {
    ShownCursor(s, rows);
    if Breaks(c) {
      NextRowShows(s.(tflag := false), rows);
    } else {
      DrawnCursor(s, c);
      var n := |rows| - 1;
      var wider := rows[..n] + [rows[n] + [c]];
      DrawnWindow(s.frame, rows, Top(rows), c);
      hide PutAt, Window, Scrolled, Draw;
      var s1 := s.(frame := PutAt(s.frame, COLS * s.y + s.x, c), x := s.x + 1);
      if s1.x >= COLS {
        NextRowShows(s1, wider);
      }
    }
  }

  // The bytes that putc does not drop: while the line buffer is full, everything
  // but line breaks is lost.
  ghost function Kept(tbuf: nat, tflag: bool, text: seq<byte>): seq<byte>
    decreases |text|
  {
    if text == [] then []
    else if Breaks(text[0]) then [text[0]] + Kept(tbuf, false, text[1..])
    else if tbuf == LINE then Kept(tbuf, tflag, text[1..])
    else [text[0]] + Kept(if tflag then tbuf + 1 else tbuf, tflag, text[1..])
  }

  // How many bytes come before the first line break.
  ghost function FirstLine(text: seq<byte>): (k: nat)
    ensures k <= |text|
  {
    if text == [] || Breaks(text[0]) then 0 else 1 + FirstLine(text[1..])
  }

  lemma {:induction false} KeptIsShorter(tbuf: nat, tflag: bool, text: seq<byte>)
    ensures |Kept(tbuf, tflag, text)| <= |text|
    decreases |text|
  {
    if text != [] {
      KeptIsShorter(tbuf, false, text[1..]);
      KeptIsShorter(tbuf, tflag, text[1..]);
      KeptIsShorter(tbuf + 1, tflag, text[1..]);
    }
  }

  // Outside a terminal_read (tflag clear) everything is kept exactly when the
  // buffer is not left full, or only line breaks are printed.
  lemma {:induction false} AllKeptOutsideRead(tbuf: nat, text: seq<byte>)
    ensures Kept(tbuf, false, text) == text <==> tbuf != LINE || forall i :: 0 <= i < |text| ==> Breaks(text[i])
  {
    if text != [] {
      AllKeptOutsideRead(tbuf, text[1..]);
      KeptIsShorter(tbuf, false, text[1..]);
      assert forall i :: 0 <= i < |text| - 1 ==> text[i + 1] == text[1..][i];
      assert text == [text[0]] + text[1..];
    }
  }

  lemma {:induction false} OutputExtendsLog(s: Screen, log: seq<byte>, text: seq<byte>)
    requires Shows(s, Wrap(log)) && Without(text, BACKSPACE)
    ensures CanPutAll(s, text) && Shows(Puts(s, text), Wrap(log + Kept(s.tbuf, s.tflag, text)))
    decreases |text|
  {
    hide Shows, Kept, Put, CanPut, AddByte;
    ShownCursor(s, Wrap(log));
    if text == [] {
      KeptNothing(s.tbuf, s.tflag, text);
      assert log + Kept(s.tbuf, s.tflag, text) == log;
    } else {
      var c := text[0];
      KeptStep(s.tbuf, s.tflag, text);
      if !Breaks(c) && s.tbuf == LINE {
        PutDropped(s, c);
        OutputExtendsLog(s, log, text[1..]);
      } else {
        PutShows(s, Wrap(log), c);
        WrapFromAppends([[]], log, [c]);
        assert Wrap(log + [c]) == AddByte(Wrap(log), c);
        PutBuffer(s, c);
        OutputExtendsLog(Put(s, c), log + [c], text[1..]);
        var rest := Kept(Put(s, c).tbuf, Put(s, c).tflag, text[1..]);
        assert log + ([c] + rest) == (log + [c]) + rest;
      }
    }
  }

  // A backspace outside a read takes the cursor one place back and blanks the cell there;
  // the line buffer stays.  With an empty buffer it does nothing.
  lemma BackspaceOutsideRead(s: Screen)
    requires Sized(s) && !s.tflag && s.tbuf != LINE && 0 <= s.x < COLS && 0 <= s.y < ROWS && 0 < COLS * s.y + s.x
    ensures CanPut(s, BACKSPACE)
    ensures s.tbuf == 0 ==> Put(s, BACKSPACE) == s
    ensures s.tbuf > 0 ==>
      var r, p := Put(s, BACKSPACE), COLS * s.y + s.x - 1;
      && COLS * r.y + r.x == p && r.tbuf == s.tbuf && r.tbuffer == s.tbuffer && !r.tflag
      && forall q :: 0 <= q < CELLS ==> Cell(r.frame, q) == if q == p then SPACE else Cell(s.frame, q)
  {
    if s.tbuf > 0 {
      hide Draw, PutAt, Cell;
      BlankBefore(s);
      forall q | 0 <= q < CELLS
        ensures Cell(PutAt(s.frame, COLS * s.y + s.x - 1, SPACE), q) ==
          if q == COLS * s.y + s.x - 1 then SPACE else Cell(s.frame, q)
      {
        CellsAfterPut(s.frame, COLS * s.y + s.x - 1, SPACE, q);
      }
    }
  }

  lemma BlankBefore(s: Screen)
    requires Sized(s) && !s.tflag && 0 <= s.x < COLS && 0 <= s.y < ROWS && 0 < COLS * s.y + s.x
    ensures Drawable(StepBack(s))
    ensures var p, d := COLS * s.y + s.x - 1, Draw(StepBack(s), SPACE);
      && COLS * d.y + d.x == p + 1 && d.frame == PutAt(s.frame, p, SPACE)
      && d.tbuf == s.tbuf && d.tbuffer == s.tbuffer && !d.tflag
  {
    hide PutAt, Scrolled;
    var b := StepBack(s);
    assert COLS * b.y + b.x == COLS * s.y + s.x - 1;
  }

  lemma ShownCursor(s: Screen, rows: Rows)
    requires Shows(s, rows)
    ensures Sized(s) && 0 <= s.x < COLS && 0 <= s.y < ROWS
  {
  }

  lemma PutDropped(s: Screen, c: byte)
    requires Sized(s) && s.tbuf == LINE && !Breaks(c) && c != BACKSPACE
    ensures CanPut(s, c) && Put(s, c) == s
  {
  }

  lemma PutBuffer(s: Screen, c: byte)
    requires CanPut(s, c) && c != BACKSPACE && (Breaks(c) || s.tbuf != LINE)
    ensures Put(s, c).tflag == (s.tflag && !Breaks(c))
    ensures Put(s, c).tbuf == if s.tflag && !Breaks(c) then s.tbuf + 1 else s.tbuf
  {
  }

  lemma KeptNothing(tbuf: nat, tflag: bool, text: seq<byte>)
    requires text == []
    ensures Kept(tbuf, tflag, text) == []
  {
  }

  lemma KeptStep(tbuf: nat, tflag: bool, text: seq<byte>)
    requires text != []
    ensures Kept(tbuf, tflag, text) ==
      if !Breaks(text[0]) && tbuf == LINE then Kept(tbuf, tflag, text[1..])
      else [text[0]] + Kept(if tflag && !Breaks(text[0]) then tbuf + 1 else tbuf, tflag && !Breaks(text[0]), text[1..])
  {
  }

  // The main result: from a cleared screen, with the line buffer not full and no
  // read under way, any backspace-free output leaves the last 25 rows of itself,
  // and the cursor stays on the screen.
  lemma ScreenShowsLog(s: Screen, text: seq<byte>)
    requires Sized(s) && s.frame == Cleared() && s.x == 0 && s.y == 0
    requires !s.tflag && s.tbuf != LINE && Without(text, BACKSPACE)
    ensures CanPutAll(s, text) && Shows(Puts(s, text), Wrap(text))
    ensures 0 <= Puts(s, text).x < COLS && 0 <= Puts(s, text).y < ROWS
  {
    ClearedShowsNothing(s);
    OutputExtendsLog(s, [], text);
    AllKeptOutsideRead(s.tbuf, text);
    assert [] + text == text;
    ShownCursor(Puts(s, text), Wrap(text));
  }
}
