// add_frames of fish/fish.c: two frame files, read byte by byte in parallel, become
// blinking characters.
module Fish {
  import opened CString
  import opened FileSystem
  import opened Descriptors
  import B = BlinkSpec
  import opened BlinkEngine

  const LENGTH := 15
  const OFFSET := 40

  // ---- What the two frames mean ----

  // The rows of a text; there is one more than it has newlines.
  ghost function Rows(t: seq<byte>): (rows: seq<seq<byte>>)
    ensures rows != []
    decreases |t|
  {
    var k := IndexOf(t, NEWLINE);
    if k == |t| then [t] else [t[..k]] + Rows(t[k + 1..])
  }

  // The rows with a newline between any two.
  ghost function Stacked(rows: seq<seq<byte>>): seq<byte>
    requires rows != []
  {
    if |rows| == 1 then rows[0] else rows[0] + [NEWLINE] + Stacked(rows[1..])
  }

  lemma {:induction false} RowsStackBack(t: seq<byte>)
    ensures Stacked(Rows(t)) == t
    ensures forall r :: 0 <= r < |Rows(t)| ==> Without(Rows(t)[r], NEWLINE)
    decreases |t|
  {
    var k := IndexOf(t, NEWLINE);
    hide IndexOf;
    if k < |t| {
      var u := t[k + 1..];
      RowsStackBack(u);
      assert Rows(t)[1..] == Rows(u);
      forall r | 0 <= r < |Rows(t)| ensures Without(Rows(t)[r], NEWLINE) {
        if r > 0 { assert Rows(t)[r] == Rows(u)[r - 1]; }
      }
    }
  }

  ghost function RowAt(rows: seq<seq<byte>>, r: nat): seq<byte> {
    if r < |rows| then rows[r] else []
  }

  function Padded(row: seq<byte>, col: nat): byte {
    if col < |row| then row[col] else SPACE
  }

  function Location(row: nat, col: nat): B.u16 { (row * 80 + col + OFFSET) % 0x1_0000 }

  ghost function Max(a: nat, b: nat): nat { if a < b then b else a }

  // A place in the picture.
  datatype Spot = Spot(row: nat, col: nat)

  ghost predicate Before(p: Spot, q: Spot) {
    p.row < q.row || (p.row == q.row && p.col < q.col)
  }

  // The picture: two lists of rows, padded with blanks to a common shape.
  datatype Picture = Picture(rows0: seq<seq<byte>>, rows1: seq<seq<byte>>)

  ghost function Height(p: Picture): nat { Max(|p.rows0|, |p.rows1|) }

  ghost function Width(p: Picture, r: nat): nat { Max(|RowAt(p.rows0, r)|, |RowAt(p.rows1, r)|) }

  // A spot is drawn when either frame has a visible character there.
  ghost predicate Drawn(p: Picture, s: Spot) {
    && s.row < Height(p) && s.col < Width(p, s.row)
    && (Padded(RowAt(p.rows0, s.row), s.col) != SPACE || Padded(RowAt(p.rows1, s.row), s.col) != SPACE)
  }

  // Row r of a frame has a visible character in column col.
  ghost predicate Visible(rows: seq<seq<byte>>, r: nat, col: nat) {
    r < |rows| && col < |rows[r]| && rows[r][col] != SPACE
  }

  lemma DrawnMeans(p: Picture, s: Spot)
    ensures Drawn(p, s) <==> Visible(p.rows0, s.row, s.col) || Visible(p.rows1, s.row, s.col)
  {
  }

  // What is added for it: on is the first frame's character, off the second's.
  ghost function BlinkAt(p: Picture, s: Spot): B.Blink {
    B.Blink(Location(s.row, s.col), Padded(RowAt(p.rows0, s.row), s.col), Padded(RowAt(p.rows1, s.row), s.col),
            LENGTH, LENGTH, 0, 0)
  }

  // The drawn spots from a place on, in reading order.
  ghost function SpotsFrom(p: Picture, r: nat, col: nat): seq<Spot>
    decreases Height(p) - r, Width(p, r) - col
  {
    if r >= Height(p) then []
    else if col >= Width(p, r) then SpotsFrom(p, r + 1, 0)
    else (if Drawn(p, Spot(r, col)) then [Spot(r, col)] else []) + SpotsFrom(p, r, col + 1)
  }

  // It lists exactly the drawn spots ...
  lemma {:induction false} SpotsAreTheDrawn(p: Picture, r: nat, col: nat, s: Spot)
    ensures s in SpotsFrom(p, r, col) <==> Drawn(p, s) && !Before(s, Spot(r, col))
    decreases Height(p) - r, Width(p, r) - col
  {
    if r >= Height(p) {
    } else if col >= Width(p, r) {
      SpotsAreTheDrawn(p, r + 1, 0, s);
    } else {
      SpotsAreTheDrawn(p, r, col + 1, s);
    }
  }

  // ... each once, in row-major order.
  lemma {:induction false} SpotsAreInOrder(p: Picture, r: nat, col: nat)
    ensures forall i, j :: 0 <= i < j < |SpotsFrom(p, r, col)| ==>
      Before(SpotsFrom(p, r, col)[i], SpotsFrom(p, r, col)[j])
    decreases Height(p) - r, Width(p, r) - col
  {
    if r >= Height(p) {
    } else if col >= Width(p, r) {
      SpotsAreInOrder(p, r + 1, 0);
    } else {
      SpotsAreInOrder(p, r, col + 1);
      var rest := SpotsFrom(p, r, col + 1);
      forall j | 0 <= j < |rest| ensures Before(Spot(r, col), rest[j]) {
        SpotsAreTheDrawn(p, r, col + 1, rest[j]);
      }
    }
  }

  ghost function Adds(p: Picture, spots: seq<Spot>): (cs: seq<B.Cmd>)
    ensures |cs| == |spots|
  {
    seq(|spots|, i requires 0 <= i < |spots| => B.Add(BlinkAt(p, spots[i])))
  }

  // Inside 16 bits a location is what it says, and not 0.
  lemma SmallPicturesHaveLocations(p: Picture, s: Spot)
    requires s.row * 80 + s.col + OFFSET < 0x1_0000
    ensures BlinkAt(p, s).location == s.row * 80 + s.col + OFFSET != 0
  {
  }

  // ---- One file's part in the loop ----

  // A file and where its current row starts; `over` once it has ended before that row.
  datatype Feed = Feed(text: seq<byte>, start: nat, over: bool)

  ghost predicate Fed(f: Feed) { f.start <= |f.text| }

  ghost function Row(f: Feed): seq<byte>
    requires Fed(f)
  {
    if f.over then [] else f.text[f.start..][..IndexOf(f.text[f.start..], NEWLINE)]
  }

  // The position and end-of-file flag behind the current row.
  ghost predicate Behind(f: Feed, pos: nat, eof: bool)
    requires Fed(f)
  {
    if f.over then eof
    else
      var end := f.start + |Row(f)|;
      if end < |f.text| then pos == end + 1 && !eof else pos == |f.text| && eof
  }

  // Between two columns: c is a newline once the row is behind, and otherwise
  // anything else.
  ghost predicate Reading(f: Feed, c: byte, pos: nat, eof: bool, col: nat) {
    && Fed(f) && pos <= |f.text|
    && if c == NEWLINE then |Row(f)| <= col && Behind(f, pos, eof)
       else !f.over && !eof && col <= |Row(f)| && pos == f.start + col
  }

  // A descriptor that is open on the file at a position.
  ghost predicate OpenAt(k: Files, fd: nat, text: seq<byte>, pos: nat)
    requires k.Valid()
    reads k.fd
  {
    fd >= 2 && fd in k.Table() && k.Table()[fd].ops == File && k.Table()[fd].fposition == pos
    && FileAt(k.img, k.Table()[fd]) == text
  }

  // Apart from two descriptors the table is what it was.
  ghost predicate Others(t: Table, was: Table, a: nat, b: nat) {
    forall e {:trigger e in t} {:trigger e in was} :: e != a && e != b ==>
      (e in t <==> e in was) && (e in t ==> t[e] == was[e])
  }

  // The reading half of a column for one file: unless its row has ended, the next
  // byte, or a newline and the end-of-file flag.
  method NextChar(k: Files, fd: nat, buf: array<byte>, was: bool, ghost f: Feed, ghost pos: nat, ghost col: nat)
    returns (eof: bool, ghost now: nat)
    requires k.Valid() && buf.Length == 1 && Reading(f, buf[0], pos, was, col)
    requires !was ==> OpenAt(k, fd, f.text, pos)
    modifies k.fd, buf
    ensures k.Valid() && now <= |f.text|
    ensures k.Table().Keys == old(k.Table()).Keys
    ensures forall e :: e in k.Table() && e != fd ==> k.Table()[e] == old(k.Table())[e]
    ensures !was ==> OpenAt(k, fd, f.text, now)
    ensures was ==> eof && k.Table() == old(k.Table())
    ensures if col < |Row(f)| then buf[0] == Row(f)[col] != NEWLINE && !eof && now == f.start + col + 1
      else buf[0] == NEWLINE && Behind(f, now, eof)
  {
    hide WellFormed, ValidInode;
    eof, now := was, pos;
    if buf[0] != NEWLINE {
      var n := k.Read(fd, buf, 0, 1);
      now := pos + n;
      if n == 0 {
        buf[0] := NEWLINE;
        eof := true;
      }
    }
  }

  // Both files at a column.
  ghost predicate Ready(k: Files, fd: nat, buf: array<byte>, f: Feed, pos: nat, eof: bool, col: nat)
    requires k.Valid()
    reads k.fd, buf
  {
    buf.Length == 1 && Reading(f, buf[0], pos, eof, col) && (!eof ==> OpenAt(k, fd, f.text, pos))
  }

  // Both files behind a row.
  ghost predicate RowOver(k: Files, fd: nat, buf: array<byte>, f: Feed, pos: nat, eof: bool)
    requires k.Valid()
    reads k.fd, buf
  {
    && buf.Length == 1 && buf[0] == NEWLINE && Fed(f) && pos <= |f.text| && Behind(f, pos, eof)
    && (!eof ==> OpenAt(k, fd, f.text, pos))
  }

  // What is left to add makes the engine what it has to become.
  ghost predicate OnTheWay(e: Engine, p: Picture, r: nat, col: nat, goal: B.State)
    requires e.Valid()
    reads e, e.pool, e.screen
  {
    var cs := Adds(p, SpotsFrom(p, r, col));
    B.CanRun(e.View(), cs) && B.Run(e.View(), cs) == goal
  }

  lemma NothingHere(p: Picture, r: nat, col: nat)
    requires !Drawn(p, Spot(r, col)) && r < Height(p)
    ensures SpotsFrom(p, r, col) == if col >= Width(p, r) then SpotsFrom(p, r + 1, 0) else SpotsFrom(p, r, col + 1)
  {
  }

  lemma SomethingHere(p: Picture, r: nat, col: nat)
    requires Drawn(p, Spot(r, col))
    ensures var cs := Adds(p, SpotsFrom(p, r, col));
      cs != [] && cs[0] == B.Add(BlinkAt(p, Spot(r, col))) && cs[1..] == Adds(p, SpotsFrom(p, r, col + 1))
  {
  }

  // One column: nothing, or one add.
  method DrawSpot(e: Engine, r: nat, col: nat, c0: byte, c1: byte, ghost p: Picture, ghost goal: B.State)
    requires e.Valid() && r < Height(p) && col < Width(p, r) && OnTheWay(e, p, r, col, goal)
    requires c0 == (if col < |RowAt(p.rows0, r)| then RowAt(p.rows0, r)[col] else NEWLINE)
    requires c1 == (if col < |RowAt(p.rows1, r)| then RowAt(p.rows1, r)[col] else NEWLINE)
    requires col < |RowAt(p.rows0, r)| ==> c0 != NEWLINE
    requires col < |RowAt(p.rows1, r)| ==> c1 != NEWLINE
    modifies e, e.pool, e.screen
    ensures e.Valid() && OnTheWay(e, p, r, col + 1, goal)
  {
    hide SpotsFrom, B.Do, B.Good, Engine.Linked;
    if (c0 != SPACE && c0 != NEWLINE) || (c1 != SPACE && c1 != NEWLINE) {
      SomethingHere(p, r, col);
      ghost var v := e.View();
      var b := B.Blink((r * 80 + col + OFFSET) % 0x1_0000, if c0 == NEWLINE then SPACE else c0,
                       if c1 == NEWLINE then SPACE else c1, LENGTH, LENGTH, 0, 0);
      var _, _ := e.IoctlAdd(b);
      B.DoKeepsGood(v, B.Add(b));
      var cs := Adds(p, SpotsFrom(p, r, col));
      assert forall i :: 0 <= i < |cs| - 1 ==> cs[1..][i] == cs[i + 1];
    } else {
      NothingHere(p, r, col);
    }
  }

  // The inner loop: both files to the end of their rows.
  method DrawRow(k: Files, e: Engine, r: nat, fd0: nat, b0: array<byte>, was0: bool, fd1: nat, b1: array<byte>,
                 was1: bool, ghost f0: Feed, ghost p0: nat, ghost f1: Feed, ghost p1: nat, ghost p: Picture,
                 ghost goal: B.State)
    returns (eof0: bool, eof1: bool, ghost n0: nat, ghost n1: nat)
    requires k.Valid() && e.Valid() && fd0 != fd1 && b0 != b1 && e.screen != b0 && e.screen != b1
    requires Ready(k, fd0, b0, f0, p0, was0, 0) && Ready(k, fd1, b1, f1, p1, was1, 0)
    requires r < Height(p) && Row(f0) == RowAt(p.rows0, r) && Row(f1) == RowAt(p.rows1, r)
    requires OnTheWay(e, p, r, 0, goal)
    modifies k.fd, b0, b1, e, e.pool, e.screen
    ensures k.Valid() && e.Valid() && k.Table().Keys == old(k.Table()).Keys
    ensures RowOver(k, fd0, b0, f0, n0, eof0) && RowOver(k, fd1, b1, f1, n1, eof1)
    ensures Others(k.Table(), old(k.Table()), fd0, fd1)
    ensures OnTheWay(e, p, r + 1, 0, goal)
  {
    hide OnTheWay, Drawn, Engine.Valid, Files.Valid, FileAt, Reading, Behind, Row;
    eof0, eof1, n0, n1 := was0, was1, p0, p1;
    var col := 0;
    while true
      invariant k.Valid() && e.Valid() && k.Table().Keys == old(k.Table()).Keys
      invariant Ready(k, fd0, b0, f0, n0, eof0, col) && Ready(k, fd1, b1, f1, n1, eof1, col)
      invariant Others(k.Table(), old(k.Table()), fd0, fd1)
      invariant OnTheWay(e, p, r, col, goal)
      decreases Width(p, r) + 1 - col
    {
      eof0, eof1, n0, n1 := NextChars(k, fd0, b0, eof0, fd1, b1, eof1, f0, n0, f1, n1, col);
      if b0[0] == NEWLINE && b1[0] == NEWLINE { break; }
      DrawSpot(e, r, col, b0[0], b1[0], p, goal);
      col := col + 1;
    }
    RowEnds(e, p, r, col, goal);
  }

  lemma RowEnds(e: Engine, p: Picture, r: nat, col: nat, goal: B.State)
    requires e.Valid() && OnTheWay(e, p, r, col, goal) && r < Height(p) && col >= Width(p, r)
    ensures OnTheWay(e, p, r + 1, 0, goal)
  {
    NothingHere(p, r, col);
  }

  // One column read from both files.
  method NextChars(k: Files, fd0: nat, b0: array<byte>, was0: bool, fd1: nat, b1: array<byte>, was1: bool,
                   ghost f0: Feed, ghost p0: nat, ghost f1: Feed, ghost p1: nat, ghost col: nat)
    returns (eof0: bool, eof1: bool, ghost n0: nat, ghost n1: nat)
    requires k.Valid() && fd0 != fd1 && b0 != b1
    requires Ready(k, fd0, b0, f0, p0, was0, col) && Ready(k, fd1, b1, f1, p1, was1, col)
    modifies k.fd, b0, b1
    ensures k.Valid() && k.Table().Keys == old(k.Table()).Keys
    ensures b0.Length == 1 && b1.Length == 1
    ensures b0[0] == (if col < |Row(f0)| then Row(f0)[col] else NEWLINE) && (b0[0] == NEWLINE <==> col >= |Row(f0)|)
    ensures b1[0] == (if col < |Row(f1)| then Row(f1)[col] else NEWLINE) && (b1[0] == NEWLINE <==> col >= |Row(f1)|)
    ensures Ready(k, fd0, b0, f0, n0, eof0, col + 1) && Ready(k, fd1, b1, f1, n1, eof1, col + 1)
    ensures b0[0] == NEWLINE ==> RowOver(k, fd0, b0, f0, n0, eof0)
    ensures b1[0] == NEWLINE ==> RowOver(k, fd1, b1, f1, n1, eof1)
    ensures Others(k.Table(), old(k.Table()), fd0, fd1)
  {
    hide FileAt, Files.Valid;
    eof0, n0 := NextChar(k, fd0, b0, was0, f0, p0, col);
    eof1, n1 := NextChar(k, fd1, b1, was1, f1, p1, col);
  }

  // ---- From row to row ----

  // The feed stands before row r of its text.
  ghost predicate FeedAt(f: Feed, rows: seq<seq<byte>>, r: nat) {
    Fed(f) && if r < |rows| then !f.over && Rows(f.text[f.start..]) == rows[r..] else f.over
  }

  lemma FirstRow(text: seq<byte>)
    ensures FeedAt(Feed(text, 0, false), Rows(text), 0)
  {
    assert text[0..] == text;
  }

  lemma FeedRow(f: Feed, rows: seq<seq<byte>>, r: nat)
    requires FeedAt(f, rows, r)
    ensures Row(f) == RowAt(rows, r)
  {
    if r < |rows| {
      assert rows[r..][0] == rows[r];
      assert Rows(f.text[f.start..])[0] == Row(f);
    }
  }

  ghost function NextFeed(f: Feed, pos: nat, eof: bool): Feed {
    if eof then f.(over := true) else Feed(f.text, pos, false)
  }

  lemma FeedNext(f: Feed, rows: seq<seq<byte>>, r: nat, pos: nat, eof: bool)
    requires FeedAt(f, rows, r) && pos <= |f.text| && Behind(f, pos, eof)
    ensures FeedAt(NextFeed(f, pos, eof), rows, r + 1)
    ensures eof <==> r + 1 >= |rows|
  {
    if r < |rows| {
      var rest := f.text[f.start..];
      var j := IndexOf(rest, NEWLINE);
      if j < |rest| {
        assert Rows(rest)[1..] == Rows(rest[j + 1..]);
        assert rest[j + 1..] == f.text[pos..];
        assert rows[r..][1..] == rows[r + 1..];
      }
    }
  }

  const ZERO_CHAR: byte := 48

  // After a row a finished file gets a newline and is closed, again if need be; the
  // other starts afresh.
  method BetweenRows(k: Files, fd: nat, buf: array<byte>, eof: bool, ghost f: Feed, ghost pos: nat,
                     ghost rows: seq<seq<byte>>, ghost r: nat)
    requires k.Valid() && RowOver(k, fd, buf, f, pos, eof) && FeedAt(f, rows, r) && 2 <= fd < SLOTS
    modifies k.fd, buf
    ensures k.Valid() && (eof ==> fd !in k.Table())
    ensures Others(k.Table(), old(k.Table()), fd, fd) && (!eof ==> k.Table() == old(k.Table()))
    ensures FeedAt(NextFeed(f, pos, eof), rows, r + 1) && Ready(k, fd, buf, NextFeed(f, pos, eof), pos, eof, 0)
    ensures eof <==> r + 1 >= |rows|
  {
    FeedNext(f, rows, r, pos, eof);
    if eof {
      buf[0] := NEWLINE;
      var _ := k.Close(fd);
    } else {
      buf[0] := ZERO_CHAR;
    }
  }

  method BetweenBoth(k: Files, fd0: nat, b0: array<byte>, eof0: bool, fd1: nat, b1: array<byte>, eof1: bool,
                     ghost f0: Feed, ghost n0: nat, ghost f1: Feed, ghost n1: nat, ghost p: Picture, ghost r: nat)
    requires k.Valid() && fd0 != fd1 && b0 != b1 && 2 <= fd0 < SLOTS && 2 <= fd1 < SLOTS
    requires RowOver(k, fd0, b0, f0, n0, eof0) && FeedAt(f0, p.rows0, r)
    requires RowOver(k, fd1, b1, f1, n1, eof1) && FeedAt(f1, p.rows1, r)
    modifies k.fd, b0, b1
    ensures k.Valid() && (eof0 ==> fd0 !in k.Table()) && (eof1 ==> fd1 !in k.Table())
    ensures Others(k.Table(), old(k.Table()), fd0, fd1)
    ensures FeedAt(NextFeed(f0, n0, eof0), p.rows0, r + 1) && Ready(k, fd0, b0, NextFeed(f0, n0, eof0), n0, eof0, 0)
    ensures FeedAt(NextFeed(f1, n1, eof1), p.rows1, r + 1) && Ready(k, fd1, b1, NextFeed(f1, n1, eof1), n1, eof1, 0)
    ensures (eof0 <==> r + 1 >= |p.rows0|) && (eof1 <==> r + 1 >= |p.rows1|)
  {
    hide FileAt, Files.Valid, Rows, FeedAt, Reading, Behind;
    BetweenRows(k, fd0, b0, eof0, f0, n0, p.rows0, r);
    BetweenRows(k, fd1, b1, eof1, f1, n1, p.rows1, r);
  }

  // ---- The whole of add_frames ----

  ghost function FileText(k: Files, name: seq<byte>): seq<byte>
    requires HasTables(k.img) && Lookup(k.img, name, 0).Some?
  {
    var f := Opened(EntryOf(k.img, Lookup(k.img, name, 0).value));
    if f.inode < 256 then FileAt(k.img, f) else []
  }

  ghost predicate Regular(k: Files, name: seq<byte>)
    requires HasTables(k.img)
  {
    var i := Lookup(k.img, name, 0);
    i.Some? ==> var d := EntryOf(k.img, i.value); OpsFor(d.ftype) == File && k.Openable(d)
  }

  ghost function PictureOf(k: Files, name0: seq<byte>, name1: seq<byte>): Picture
    requires HasTables(k.img) && Lookup(k.img, name0, 0).Some? && Lookup(k.img, name1, 0).Some?
  {
    Picture(Rows(FileText(k, name0)), Rows(FileText(k, name1)))
  }

  // No drawn spot has a location that is 0 in 16 bits.
  ghost predicate NoZeroLocation(p: Picture) {
    forall s :: Drawn(p, s) ==> BlinkAt(p, s).location != 0
  }

  lemma AllAddsCanRun(e: Engine, p: Picture)
    requires e.Valid() && NoZeroLocation(p)
    ensures B.CanRun(e.View(), Adds(p, SpotsFrom(p, 0, 0)))
  {
    e.ViewIsGood();
    var spots := SpotsFrom(p, 0, 0);
    forall i | 0 <= i < |spots| ensures BlinkAt(p, spots[i]).location != 0 {
      SpotsAreTheDrawn(p, 0, 0, spots[i]);
    }
  }

  lemma NoMoreRows(e: Engine, p: Picture, r: nat, goal: B.State)
    requires e.Valid() && OnTheWay(e, p, r, 0, goal) && r >= Height(p)
    ensures e.View() == goal
  {
  }

  ghost predicate TwoFree(t: Table) {
    exists i, j :: 2 <= i < j < SLOTS && i !in t && j !in t
  }

  lemma NoneFree(t: Table)
    requires LowestFree(t, -1)
    ensures !TwoFree(t)
  {
  }

  lemma SecondFree(t: Table, d: int, v: FileDesc)
    requires 2 <= d && LowestFree(t, d)
    ensures LowestFree(t[d := v], -1) <==> !TwoFree(t)
  {
    var u := t[d := v];
    if TwoFree(t) {
      var i, j :| 2 <= i < j < SLOTS && i !in t && j !in t;
      assert j !in u;
    } else if 2 <= d < SLOTS {
      assert forall j :: d < j < SLOTS ==> j in t;
    }
  }

  // Both files exist and can be open at the same time.
  ghost predicate BothOpen(img: Image, t: Table, name0: seq<byte>, name1: seq<byte>)
    requires HasTables(img)
  {
    Lookup(img, name0, 0).Some? && Lookup(img, name1, 0).Some? && TwoFree(t)
  }

  // Both files open and unread, exactly when that is possible.
  method OpenBoth(k: Files, name0: seq<byte>, name1: seq<byte>, ghost text0: seq<byte>, ghost text1: seq<byte>)
    returns (fd0: int, fd1: int)
    requires k.Valid() && Without(name0, NUL) && Without(name1, NUL) && Regular(k, name0) && Regular(k, name1)
    requires Lookup(k.img, name0, 0).Some? ==> text0 == FileText(k, name0)
    requires Lookup(k.img, name1, 0).Some? ==> text1 == FileText(k, name1)
    modifies k`dt, k.fd
    ensures k.Valid() && (fd0 < 0 ==> fd1 < 0)
    ensures fd1 >= 0 <==> BothOpen(k.img, old(k.Table()), name0, name1)
    ensures fd1 >= 0 ==>
      && fd0 != fd1 && 2 <= fd0 < SLOTS && 2 <= fd1 < SLOTS && fd0 !in old(k.Table()) && fd1 !in old(k.Table())
      && OpenAt(k, fd0, text0, 0) && OpenAt(k, fd1, text1, 0) && Others(k.Table(), old(k.Table()), fd0, fd1)
  {
    hide FileAt, Content, TwoFree, WellFormed, ValidInode;
    fd0, fd1 := -1, -1;
    fd0 := k.Open(name0);
    if fd0 < 0 {
      if Lookup(k.img, name0, 0).Some? { NoneFree(old(k.Table())); }
      return;
    }
    SecondFree(old(k.Table()), fd0, k.Table()[fd0]);
    fd1 := k.Open(name1);
  }

  // Halts exactly if the two files cannot both be opened.  Otherwise the engine gets
  // exactly one add for each drawn spot, in row-major order, the loop ends, and both
  // files are closed again.
  method AddFrames(k: Files, e: Engine, name0: seq<byte>, name1: seq<byte>) returns (halted: bool)
    requires k.Valid() && e.Valid() && Without(name0, NUL) && Without(name1, NUL)
    requires Regular(k, name0) && Regular(k, name1)
    requires Lookup(k.img, name0, 0).Some? && Lookup(k.img, name1, 0).Some? ==>
      NoZeroLocation(PictureOf(k, name0, name1))
    modifies k`dt, k.fd, e, e.pool, e.screen
    ensures k.Valid() && e.Valid()
    ensures halted <==> !BothOpen(k.img, old(k.Table()), name0, name1)
    ensures halted ==> e.View() == old(e.View())
    ensures !halted ==> k.Table() == old(k.Table())
    ensures !halted ==>
      var p := PictureOf(k, name0, name1);
      var cs := Adds(p, SpotsFrom(p, 0, 0));
      B.CanRun(old(e.View()), cs) && e.View() == B.Run(old(e.View()), cs)
  {
    hide FileAt, Rows, NoZeroLocation, Drawn, B.Good, FileText, TwoFree;
    ghost var was := k.Table();
    ghost var text0: seq<byte> := if Lookup(k.img, name0, 0).Some? then FileText(k, name0) else [];
    ghost var text1: seq<byte> := if Lookup(k.img, name1, 0).Some? then FileText(k, name1) else [];
    var fd0, fd1 := OpenBoth(k, name0, name1, text0, text1);
    if fd1 < 0 { return true; }
    ghost var both := k.Table();
    ghost var p := PictureOf(k, name0, name1);
    AllAddsCanRun(e, p);
    DrawFrames(k, e, fd0, fd1, text0, text1, p, B.Run(e.View(), Adds(p, SpotsFrom(p, 0, 0))));
    BothClosed(k.Table(), both, was, fd0, fd1);
    return false;
  }

  lemma BothClosed(t: Table, both: Table, was: Table, a: nat, b: nat)
    requires Others(t, both, a, b) && Others(both, was, a, b)
    requires a !in t && b !in t && a !in was && b !in was
    ensures t == was
  {
  }

  lemma StillOthers(t: Table, u: Table, v: Table, was: Table, a: nat, b: nat)
    requires Others(t, u, a, b) && Others(u, v, a, b) && Others(v, was, a, b)
    ensures Others(t, was, a, b)
  {
  }

  method DrawFrames(k: Files, e: Engine, fd0: nat, fd1: nat, ghost text0: seq<byte>, ghost text1: seq<byte>,
                    ghost p: Picture, ghost goal: B.State)
    requires k.Valid() && e.Valid() && fd0 != fd1 && 2 <= fd0 < SLOTS && 2 <= fd1 < SLOTS
    requires OpenAt(k, fd0, text0, 0) && OpenAt(k, fd1, text1, 0)
    requires p == Picture(Rows(text0), Rows(text1)) && OnTheWay(e, p, 0, 0, goal)
    modifies k.fd, e, e.pool, e.screen
    ensures k.Valid() && e.Valid() && e.View() == goal
    ensures fd0 !in k.Table() && fd1 !in k.Table() && Others(k.Table(), old(k.Table()), fd0, fd1)
  {
    hide OnTheWay, Engine.Valid, Files.Valid, FileAt, Behind, Row, Rows, RowOver, SpotsFrom, OpenAt;
    var b0, b1 := new byte[1][ZERO_CHAR], new byte[1][ZERO_CHAR];
    var eof0, eof1, row := false, false, 0;
    ghost var f0, f1, n0: nat, n1: nat := Feed(text0, 0, false), Feed(text1, 0, false), 0, 0;
    FirstRow(text0);
    FirstRow(text1);
    assert Ready(k, fd0, b0, f0, 0, false, 0) && Ready(k, fd1, b1, f1, 0, false, 0);
    ghost var was := k.Table();
    assert Others(k.Table(), was, fd0, fd1);
    hide Ready, FeedAt, Others;
    while !eof0 || !eof1
      invariant k.Valid() && e.Valid() && fresh(b0) && fresh(b1) && b0 != b1 && e.screen != b0 && e.screen != b1
      invariant Ready(k, fd0, b0, f0, n0, eof0, 0) && Ready(k, fd1, b1, f1, n1, eof1, 0)
      invariant FeedAt(f0, p.rows0, row) && FeedAt(f1, p.rows1, row)
      invariant (eof0 <==> row >= |p.rows0|) && (eof1 <==> row >= |p.rows1|)
      invariant Others(k.Table(), was, fd0, fd1) && (eof0 ==> fd0 !in k.Table()) && (eof1 ==> fd1 !in k.Table())
      invariant OnTheWay(e, p, row, 0, goal)
      decreases Height(p) - row
    {
      ghost var t := k.Table();
      FeedRow(f0, p.rows0, row);
      FeedRow(f1, p.rows1, row);
      eof0, eof1, n0, n1 := DrawRow(k, e, row, fd0, b0, eof0, fd1, b1, eof1, f0, n0, f1, n1, p, goal);
      ghost var u := k.Table();
      BetweenBoth(k, fd0, b0, eof0, fd1, b1, eof1, f0, n0, f1, n1, p, row);
      StillOthers(k.Table(), u, t, was, fd0, fd1);
      f0, f1 := NextFeed(f0, n0, eof0), NextFeed(f1, n1, eof1);
      row := row + 1;
    }
    NoMoreRows(e, p, row, goal);
  }
}
