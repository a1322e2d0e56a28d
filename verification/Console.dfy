// The text console: putc, clear and reset_screen of student-distrib/lib.c.  The
// state is the video frame, the cursor, and the line buffer that terminal_read
// shares with putc.
module Console {
  import opened CString
  import opened Memory

  const COLS := 80
  const ROWS := 25
  const CELLS := 2000
  const FRAME := 4000     // bytes: a character and an attribute for each cell
  const PAGE := 4096
  const VIDEO := 0xB8000
  const ATTRIB: byte := 0x7
  const ATTRIB_YELLOW: byte := 0xA
  const LINE := 128       // the most the line buffer takes
  const LINE_BUF := 129

  // ---- The state as a value, and what one putc does to it ----

  datatype Screen = Screen(frame: seq<byte>, x: int, y: int, tbuf: nat, tbuffer: seq<byte>, tflag: bool)

  predicate Sized(s: Screen) {
    |s.frame| == FRAME && |s.tbuffer| == LINE_BUF && s.tbuf <= LINE
  }

  // The character cell at linear position p.
  function Cell(frame: seq<byte>, p: nat): byte
    requires |frame| == FRAME && p < CELLS
  {
    frame[2 * p]
  }

  function PutAt(frame: seq<byte>, p: nat, c: byte): (f: seq<byte>)
    requires |frame| == FRAME && p < CELLS
    ensures |f| == FRAME
  {
    frame[2 * p := c][2 * p + 1 := ATTRIB_YELLOW]
  }

  // All rows move up by one; the last row keeps its attributes, with blank characters.
  function Scrolled(frame: seq<byte>): (f: seq<byte>)
    requires |frame| == FRAME
    ensures |f| == FRAME
  {
    seq(FRAME, i requires 0 <= i < FRAME =>
      if i < FRAME - 2 * COLS then frame[i + 2 * COLS] else if i % 2 == 0 then SPACE else frame[i])
  }

  // C's / and % truncate towards zero.
  function Rem(a: int, m: nat): int
    requires m > 0
  { if a >= 0 then a % m else -((-a) % m) }

  function Quot(a: int, m: nat): int
    requires m > 0
  { if a >= 0 then a / m else -((-a) / m) }

  function NextRow(s: Screen): (r: Screen)
    requires Sized(s)
    ensures Sized(r)
  {
    if s.y + 1 > ROWS - 1 then s.(frame := Scrolled(s.frame), x := 0) else s.(x := 0, y := s.y + 1)
  }

  function Draw(s: Screen, c: byte): (r: Screen)
    requires Sized(s) && 0 <= COLS * s.y + s.x < CELLS
    ensures Sized(r)
  {
    var s1 := s.(frame := PutAt(s.frame, COLS * s.y + s.x, c), x := s.x + 1);
    var s2 := if s1.x >= COLS then NextRow(s1) else s1;
    var x := Rem(s2.x, COLS);
    var s3 := s2.(x := x, y := Rem(s2.y + Quot(x, COLS), ROWS));
    if s3.tflag && s3.tbuf < LINE then s3.(tbuffer := s3.tbuffer[s3.tbuf := c], tbuf := s3.tbuf + 1) else s3
  }

  // A backspace first steps back, into the row above at the left edge ...
  function StepBack(s: Screen): Screen {
    if s.x != 0 then s.(x := s.x - 1) else s.(x := COLS - 1, y := s.y - 1)
  }

  // ... and is a blank put there, unless the line is full, and another step back.
  function Backspaced(s: Screen): (r: Screen)
    requires Sized(s) && (s.tbuf != LINE ==> Drawable(StepBack(s)))
    ensures Sized(r)
  {
    var b := StepBack(s);
    var d := if s.tbuf == LINE then b else Draw(b, SPACE);
    d.(x := d.x - 1, tbuf := if d.tflag && d.tbuf > 1 then d.tbuf - 2 else d.tbuf)
  }

  predicate Drawable(s: Screen) { 0 <= COLS * s.y + s.x < CELLS }

  predicate Breaks(c: byte) { c == NEWLINE || c == RETURN }

  // The cursor is where putc(c) can work without leaving the frame.
  predicate CanPut(s: Screen, c: byte) {
    Sized(s) && (!Breaks(c) && s.tbuf != LINE && !(c == BACKSPACE && s.tbuf == 0) ==>
                   Drawable(if c == BACKSPACE then StepBack(s) else s))
  }

  function Put(s: Screen, c: byte): (r: Screen)
    requires CanPut(s, c)
    ensures Sized(r)
  {
    if Breaks(c) then NextRow(s.(tflag := false))
    else if c == BACKSPACE then (if s.tbuf == 0 then s else Backspaced(s))
    else if s.tbuf == LINE then s
    else Draw(s, c)
  }

  function Cleared(): (f: seq<byte>)
    ensures |f| == FRAME
  {
    seq(FRAME, i => if i % 2 == 0 then SPACE else ATTRIB)
  }

  lemma CellsAfterPut(frame: seq<byte>, p: nat, c: byte, q: nat)
    requires |frame| == FRAME && p < CELLS && q < CELLS
    ensures Cell(PutAt(frame, p, c), q) == if q == p then c else Cell(frame, q)
  {
  }

  // The attribute bytes: yellow for what is put, plain for what is cleared, and a scroll
  // takes them along.
  lemma FrameBytes(frame: seq<byte>, p: nat, c: byte, i: nat)
    requires |frame| == FRAME && p < CELLS && i < FRAME
    ensures PutAt(frame, p, c)[i] == if i == 2 * p then c else if i == 2 * p + 1 then 0xA else frame[i]
    ensures Cleared()[i] == if i % 2 == 0 then 0x20 else 0x7
    ensures Scrolled(frame)[i] == if i + 160 < FRAME then frame[i + 160] else if i % 2 == 0 then 0x20 else frame[i]
  {
  }

  lemma CellsAfterScroll(frame: seq<byte>, q: nat)
    requires |frame| == FRAME && q < CELLS
    ensures Cell(Scrolled(frame), q) == if q + COLS < CELLS then Cell(frame, q + COLS) else SPACE
  {
  }

  // ---- The implementation, on physical memory ----

  class Display {
    const mem: array<byte>
    var screen_x: int
    var screen_y: int
    const tbuffer: array<byte>
    var tbuf: nat
    var tflag: bool

    ghost predicate Valid()
      reads this
    {
      VIDEO + PAGE <= mem.Length && tbuffer.Length == LINE_BUF && tbuf <= LINE && mem != tbuffer
    }

    ghost function View(): (s: Screen)
      requires Valid()
      reads this, mem, tbuffer
      ensures Sized(s)
    {
      Screen(mem[VIDEO..VIDEO + FRAME], screen_x, screen_y, tbuf, tbuffer[..], tflag)
    }

    // Nothing outside the video page changes.
    twostate predicate OnlyVideo()
      reads mem
    {
      forall a {:trigger mem[a]} :: 0 <= a < mem.Length && (a < VIDEO || VIDEO + PAGE <= a) ==> mem[a] == old(mem[a])
    }

    constructor (mem: array<byte>)
      requires VIDEO + PAGE <= mem.Length
      ensures this.mem == mem && fresh(tbuffer) && Valid()
      ensures View() == Screen(mem[VIDEO..VIDEO + FRAME], 0, 0, 0, seq(LINE_BUF, _ => NUL), false)
    {
      this.mem := mem;
      tbuffer := new byte[LINE_BUF](_ => NUL);
      screen_x, screen_y, tbuf, tflag := 0, 0, 0, false;
      new;
      assert tbuffer[..] == seq(LINE_BUF, _ => NUL);
    }

    method Clear()
      requires Valid()
      modifies mem
      ensures View() == old(View()).(frame := Cleared()) && OnlyVideo()
    {
      var i := 0;
      while i < ROWS * COLS
        invariant 0 <= i <= ROWS * COLS
        invariant forall a {:trigger mem[a]} :: VIDEO <= a < VIDEO + 2 * i ==>
          mem[a] == if a % 2 == 0 then SPACE else ATTRIB
        invariant forall a {:trigger mem[a]} :: 0 <= a < VIDEO || VIDEO + 2 * i <= a < mem.Length ==>
          mem[a] == old(mem[a])
      {
        mem[VIDEO + 2 * i] := SPACE;
        mem[VIDEO + 2 * i + 1] := ATTRIB;
        i := i + 1;
      }
      assert mem[VIDEO..VIDEO + FRAME] == Cleared();
    }

    method ResetScreen()
      requires Valid()
      modifies this`screen_x, this`screen_y, mem
      ensures Valid() && View() == old(View()).(frame := Cleared(), x := 0, y := 0) && OnlyVideo()
    {
      Clear();
      screen_x := 0;
      screen_y := 0;
    }

    // One row of 160 bytes moves up.
    method CopyRow(i: nat)
      requires Valid() && i < ROWS - 1
      modifies mem
      ensures forall a {:trigger mem[a]} :: VIDEO + 160 * i <= a < VIDEO + 160 * (i + 1) ==> mem[a] == old(mem[a + 160])
      ensures forall a {:trigger mem[a]} :: 0 <= a < VIDEO + 160 * i || VIDEO + 160 * (i + 1) <= a < mem.Length ==>
        mem[a] == old(mem[a])
    {
      hide FastCopy;
      ghost var m := mem[..];
      Memcpy(mem, VIDEO + COLS * i * 2, VIDEO + COLS * (i + 1) * 2, COLS * 2);
      MemcpyMovesAll(m, VIDEO + COLS * i * 2, VIDEO + COLS * (i + 1) * 2, COLS * 2);
      assert forall a :: 0 <= a < mem.Length ==> mem[a] == mem[..][a];
    }

    // The scroll that putc does when the cursor leaves the last row.  Of the two
    // stores that blank the row, only the first is in the loop: the attribute
    // goes once, to the byte behind the frame's end.
    method Scroll()
      requires Valid() && screen_y == ROWS
      modifies this`screen_y, mem
      ensures Valid() && View() == old(View()).(frame := Scrolled(old(View()).frame), y := ROWS - 1)
      ensures OnlyVideo()
    {
      var i := 0;
      while i < ROWS - 1
        invariant 0 <= i <= ROWS - 1 && screen_y == ROWS
        invariant forall a {:trigger mem[a]} :: VIDEO <= a < VIDEO + 160 * i ==> mem[a] == old(mem[a + 160])
        invariant forall a {:trigger mem[a]} :: 0 <= a < VIDEO || VIDEO + 160 * i <= a < mem.Length ==>
          mem[a] == old(mem[a])
      {
        CopyRow(i);
        i := i + 1;
      }
      screen_y := screen_y - 1;
      i := 0;
      while i < COLS
        invariant 0 <= i <= COLS && screen_y == ROWS - 1
        invariant forall a {:trigger mem[a]} :: VIDEO <= a < VIDEO + 3840 ==> mem[a] == old(mem[a + 160])
        invariant forall a {:trigger mem[a]} :: VIDEO + 3840 <= a < VIDEO + 3840 + 2 * i ==>
                    mem[a] == if a % 2 == 0 then SPACE else old(mem[a])
        invariant forall a {:trigger mem[a]} :: 0 <= a < VIDEO || VIDEO + 3840 + 2 * i <= a < mem.Length ==>
          mem[a] == old(mem[a])
      {
        mem[VIDEO + 2 * (COLS * screen_y + i)] := SPACE;
        i := i + 1;
      }
      mem[VIDEO + 2 * (COLS * screen_y + i) + 1] := ATTRIB_YELLOW;
      assert mem[VIDEO..VIDEO + FRAME] == Scrolled(old(mem[VIDEO..VIDEO + FRAME]));
    }

    method WrapRow()
      requires Valid() && screen_y < ROWS
      modifies this`screen_x, this`screen_y, mem
      ensures Valid() && View() == NextRow(old(View())) && OnlyVideo()
    {
      screen_y := screen_y + 1;
      screen_x := 0;
      if screen_y > ROWS - 1 {
        Scroll();
      }
    }

    // Stores a character and its attribute at the cursor.
    method DrawCell(c: byte)
      requires Valid() && Drawable(View())
      modifies mem
      ensures View() == old(View()).(frame := PutAt(old(View()).frame, COLS * screen_y + screen_x, c))
      ensures OnlyVideo()
    {
      var p := COLS * screen_y + screen_x;
      mem[VIDEO + 2 * p] := c;
      mem[VIDEO + 2 * p + 1] := ATTRIB_YELLOW;
      assert mem[VIDEO..VIDEO + FRAME] == PutAt(old(View()).frame, p, c);
    }

    method PutC(c: byte)
      requires Valid() && CanPut(View(), c) && screen_y < ROWS
      modifies this, mem, tbuffer
      ensures Valid() && View() == Put(old(View()), c) && OnlyVideo()
      decreases c == BACKSPACE
    {
      hide Draw, NextRow;
      if c == NEWLINE || c == RETURN {
        tflag := false;
        WrapRow();
      } else if c == BACKSPACE && tbuf == 0 {
        return;
      } else if c == BACKSPACE {
        if screen_x != 0 {
          screen_x := screen_x - 1;
          PutC(SPACE);
          screen_x := screen_x - 1;
        } else {
          screen_x := COLS;
          screen_y := screen_y - 1;
          screen_x := screen_x - 1;
          PutC(SPACE);
          screen_x := screen_x - 1;
        }
        if tflag {
          if tbuf > 1 { tbuf := tbuf - 2; }
        }
      } else if tbuf == LINE {
        return;
      } else {
        PutChar(c);
      }
    }

    // putc's last branch: draw, advance, and record the character.
    method PutChar(c: byte)
      requires Valid() && tbuf != LINE && Drawable(View()) && screen_y < ROWS
      modifies this, mem, tbuffer
      ensures Valid() && View() == Draw(old(View()), c) && OnlyVideo()
    {
      hide PutAt, Scrolled;
      DrawCell(c);
      screen_x := screen_x + 1;
      if screen_x >= COLS {
        WrapRow();
      }
      screen_x := Rem(screen_x, COLS);
      screen_y := Rem(screen_y + Quot(screen_x, COLS), ROWS);
      if tflag {
        if tbuf < LINE {
          tbuffer[tbuf] := c;
          tbuf := tbuf + 1;
        }
      }
    }

    // puts and terminal_write: every byte goes through putc.
    method PutAll(bytes: seq<byte>)
      requires Valid() && CanPutAll(View(), bytes) && screen_y < ROWS
      modifies this, mem, tbuffer
      ensures Valid() && View() == Puts(old(View()), bytes) && OnlyVideo()
    {
      ghost var s := View();
      var i := 0;
      while i < |bytes|
        invariant 0 <= i <= |bytes| && Valid() && OnlyVideo() && screen_y < ROWS
        invariant CanPutAll(View(), bytes[i..]) && Puts(View(), bytes[i..]) == Puts(s, bytes)
      {
        PutC(bytes[i]);
        i := i + 1;
      }
    }
  }

  ghost predicate CanPutAll(s: Screen, bytes: seq<byte>)
    decreases |bytes|
  {
    Sized(s) && s.y < ROWS && (bytes == [] || (CanPut(s, bytes[0]) && CanPutAll(Put(s, bytes[0]), bytes[1..])))
  }

  ghost function Puts(s: Screen, bytes: seq<byte>): (r: Screen)
    requires CanPutAll(s, bytes)
    ensures Sized(r) && r.y < ROWS
    decreases |bytes|
  {
    if bytes == [] then s else Puts(Put(s, bytes[0]), bytes[1..])
  }
}
