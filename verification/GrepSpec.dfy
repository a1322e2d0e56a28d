// What syscalls/ece391grep.c is to print for a file, and what its buffer can see.
module GrepSpec {
  import opened CString

  const BUFSIZE := 1024

  // ---- What grep is for: the lines of a file that contain the pattern ----

  // The terminator of an empty pattern is found at a NUL byte.
  ghost predicate Contains(line: seq<byte>, s: seq<byte>) {
    if s == [] then NUL in line else exists i :: OccursAt(line, s, i)
  }

  ghost predicate OccursAt(line: seq<byte>, s: seq<byte>, i: int) {
    0 <= i && i + |s| <= |line| && line[i..i + |s|] == s
  }

  // A pattern occurs in a line that is something, the pattern, and something.
  lemma ContainsMeans(line: seq<byte>, s: seq<byte>)
    requires s != []
    ensures Contains(line, s) <==> exists a, b :: line == a + s + b
  {
    if Contains(line, s) {
      var i :| OccursAt(line, s, i);
      assert line == line[..i] + s + line[i + |s|..];
    }
    forall a, b | line == a + s + b ensures Contains(line, s) {
      assert line[|a|..|a| + |s|] == s;
      assert OccursAt(line, s, |a|);
    }
  }

  ghost function Lines(t: seq<byte>): seq<seq<byte>>
    decreases |t|
  {
    if t == [] then [] else [t[..IndexOf(t, NEWLINE)]] + Lines(AfterLine(t))
  }

  ghost function AfterLine(t: seq<byte>): (u: seq<byte>)
    ensures t != [] ==> |u| < |t|
  {
    var k := IndexOf(t, NEWLINE);
    if k < |t| then t[k + 1..] else []
  }

  // A line that is found is printed, as far as its first NUL.
  ghost function Found(s: seq<byte>, fname: seq<byte>, line: seq<byte>): seq<byte> {
    if Contains(line, s) then fname + [COLON] + CStr(line) + [NEWLINE] else []
  }

  const COLON: byte := 58

  // The report of a list of lines: "name:line" for each that contains the pattern.
  ghost function Report(s: seq<byte>, fname: seq<byte>, lines: seq<seq<byte>>): seq<byte> {
    if lines == [] then [] else Found(s, fname, lines[0]) + Report(s, fname, lines[1..])
  }

  // The lines, each with a newline behind it.
  ghost function Ended(lines: seq<seq<byte>>): seq<byte> {
    if lines == [] then [] else lines[0] + [NEWLINE] + Ended(lines[1..])
  }

  // The lines hold no newline and make up the text; only the last may lack its own.
  lemma {:induction false} LinesMakeTheText(t: seq<byte>)
    ensures Ended(Lines(t)) == if t == [] || t[|t| - 1] == NEWLINE then t else t + [NEWLINE]
    ensures forall k :: 0 <= k < |Lines(t)| ==> Without(Lines(t)[k], NEWLINE)
    decreases |t|
  {
    if t != [] {
      FirstLineOf(t);
      var n, u := IndexOf(t, NEWLINE), AfterLine(t);
      hide Lines, IndexOf, AfterLine;
      LinesMakeTheText(u);
      var line, lines := t[..n], [t[..n]] + Lines(u);
      assert lines[1..] == Lines(u);
      assert line + [NEWLINE] + u == if n < |t| then t else t + [NEWLINE];
      assert u != [] ==> t[|t| - 1] == u[|u| - 1];
      forall k | 0 <= k < |lines| ensures Without(lines[k], NEWLINE) {
        if k > 0 { assert lines[k] == Lines(u)[k - 1]; }
      }
    }
  }

  lemma FirstLineOf(t: seq<byte>)
    requires t != []
    ensures var n, u := IndexOf(t, NEWLINE), AfterLine(t);
      && Lines(t) == [t[..n]] + Lines(u) && Without(t[..n], NEWLINE)
      && (if n < |t| then t == t[..n] + [NEWLINE] + u else u == [] && t[..n] == t && t[|t| - 1] != NEWLINE)
  {
    hide *;
    FirstOfLines(t);
    var u := RestIs(t);
    LineAndRest(t, IndexOf(t, NEWLINE), u);
  }

  lemma RestIs(t: seq<byte>) returns (u: seq<byte>)
    ensures var n := IndexOf(t, NEWLINE);
      && n <= |t| && (n < |t| ==> t[n] == NEWLINE) && (forall j {:trigger t[j]} :: 0 <= j < n ==> t[j] != NEWLINE)
      && u == AfterLine(t) && u == if n < |t| then t[n + 1..] else []
  {
    hide IndexOf;
    u := AfterLine(t);
  }

  lemma LineAndRest(t: seq<byte>, n: nat, u: seq<byte>)
    requires t != [] && n <= |t| && (n < |t| ==> t[n] == NEWLINE)
    requires forall j {:trigger t[j]} :: 0 <= j < n ==> t[j] != NEWLINE
    requires u == if n < |t| then t[n + 1..] else []
    ensures Without(t[..n], NEWLINE)
    ensures if n < |t| then t == t[..n] + [NEWLINE] + u else u == [] && t[..n] == t && t[|t| - 1] != NEWLINE
  {
    if n < |t| {
      assert t == t[..n] + [t[n]] + t[n + 1..];
    }
  }

  lemma FirstOfLines(t: seq<byte>)
    requires t != []
    ensures Lines(t) == [t[..IndexOf(t, NEWLINE)]] + Lines(AfterLine(t))
  {
    hide IndexOf;
  }

  // A report goes line by line, and of one line it is the line under the file's name
  // if the pattern occurs in it.
  lemma {:induction false} ReportGoesByLine(s: seq<byte>, fname: seq<byte>, a: seq<seq<byte>>, b: seq<seq<byte>>)
    ensures Report(s, fname, a + b) == Report(s, fname, a) + Report(s, fname, b)
  {
    hide Found;
    if a == [] {
      assert a + b == b;
    } else {
      assert (a + b)[1..] == a[1..] + b;
      ReportGoesByLine(s, fname, a[1..], b);
    }
  }

  lemma ReportOfLine(s: seq<byte>, fname: seq<byte>, line: seq<byte>)
    requires s != [] && Without(line, NUL)
    ensures Report(s, fname, [line]) ==
      if exists a, b :: line == a + s + b then fname + [COLON] + line + [NEWLINE] else []
  {
    ContainsMeans(line, s);
    assert CStr(line) == line;
    hide Contains, CStr;
    assert [line][1..] == [];
  }

  // ---- What the buffer can see: lines cut into pieces of at most BUFSIZE ----

  // The length of the first piece: up to the newline, or a full buffer.
  ghost function PieceLen(t: seq<byte>): (k: nat)
    ensures k <= |t|
  {
    var k := IndexOf(t, NEWLINE);
    if k < BUFSIZE then k else BUFSIZE
  }

  // The text after the first piece and the newline that ends it.
  ghost function AfterPiece(t: seq<byte>): seq<byte> {
    var k := PieceLen(t);
    if k < BUFSIZE && k < |t| then t[k + 1..] else t[k..]
  }

  ghost function Pieces(t: seq<byte>): seq<seq<byte>>
    decreases |t|
  {
    if t == [] then [] else [t[..PieceLen(t)]] + Pieces(AfterPiece(t))
  }

  ghost function PieceReport(s: seq<byte>, fname: seq<byte>, t: seq<byte>): seq<byte> {
    Report(s, fname, Pieces(t))
  }

  // ---- Pieces are lines as long as no line is longer than the buffer ----

  ghost predicate LinesFit(t: seq<byte>) {
    forall k :: 0 <= k < |Lines(t)| ==> |Lines(t)[k]| <= BUFSIZE
  }

  lemma LinesStep(s: seq<byte>, fname: seq<byte>, t: seq<byte>)
    requires t != []
    ensures Report(s, fname, Lines(t)) ==
      Found(s, fname, t[..IndexOf(t, NEWLINE)]) + Report(s, fname, Lines(AfterLine(t)))
    ensures LinesFit(t) ==> IndexOf(t, NEWLINE) <= BUFSIZE && LinesFit(AfterLine(t))
  {
    var u := AfterLine(t);
    assert Lines(t)[1..] == Lines(u);
    assert LinesFit(t) ==> |Lines(t)[0]| <= BUFSIZE;
    assert forall j :: 0 <= j < |Lines(u)| ==> Lines(u)[j] == Lines(t)[j + 1];
  }

  lemma PiecesStep(s: seq<byte>, fname: seq<byte>, t: seq<byte>)
    requires t != []
    ensures PieceReport(s, fname, t) == Found(s, fname, t[..PieceLen(t)]) + PieceReport(s, fname, AfterPiece(t))
  {
    assert Pieces(t)[1..] == Pieces(AfterPiece(t));
  }

  lemma NothingInEmpty(s: seq<byte>, fname: seq<byte>)
    ensures Found(s, fname, []) == []
  {
  }

  lemma EmptyPiece(s: seq<byte>, fname: seq<byte>, r: seq<byte>)
    requires r != [] && r[0] == NEWLINE
    ensures PieceReport(s, fname, r) == PieceReport(s, fname, r[1..])
  {
    assert PieceLen(r) == 0 && AfterPiece(r) == r[1..] && r[..0] == [];
    hide *;
    PiecesStep(s, fname, r);
    NothingInEmpty(s, fname);
    assert [] + PieceReport(s, fname, r[1..]) == PieceReport(s, fname, r[1..]);
  }

  // A first line that fits gives the same report as its piece; a newline right
  // after a full buffer only adds an empty piece, where nothing is found.
  lemma FittingFirstPiece(s: seq<byte>, fname: seq<byte>, t: seq<byte>)
    requires t != [] && IndexOf(t, NEWLINE) <= BUFSIZE
    ensures t[..PieceLen(t)] == t[..IndexOf(t, NEWLINE)]
    ensures PieceReport(s, fname, AfterPiece(t)) == PieceReport(s, fname, AfterLine(t))
  {
    hide PieceReport;
    var k := IndexOf(t, NEWLINE);
    if k == BUFSIZE && k < |t| {
      var r := AfterPiece(t);
      assert r == t[k..] && r[1..] == AfterLine(t);
      EmptyPiece(s, fname, r);
    } else {
      assert AfterPiece(t) == AfterLine(t);
    }
  }

  lemma {:induction false} FittingPiecesAreLines(s: seq<byte>, fname: seq<byte>, t: seq<byte>)
    requires LinesFit(t)
    ensures PieceReport(s, fname, t) == Report(s, fname, Lines(t))
    decreases |t|
  {
    if t != [] {
      LinesStep(s, fname, t);
      PiecesStep(s, fname, t);
      FittingFirstPiece(s, fname, t);
      FittingPiecesAreLines(s, fname, AfterLine(t));
    }
  }

  ghost predicate SameReport(s: seq<byte>, fname: seq<byte>, t: seq<byte>) {
    PieceReport(s, fname, t) == Report(s, fname, Lines(t))
  }

  lemma LinesFitStep(t: seq<byte>)
    requires t != [] && IndexOf(t, NEWLINE) <= BUFSIZE && LinesFit(AfterLine(t))
    ensures LinesFit(t)
  {
    hide IndexOf;
    assert Lines(t)[1..] == Lines(AfterLine(t));
    forall k | 0 <= k < |Lines(t)| ensures |Lines(t)[k]| <= BUFSIZE {
      if k > 0 { assert Lines(t)[k] == Lines(AfterLine(t))[k - 1]; }
    }
  }

  lemma ByteIsFound(c: byte, fname: seq<byte>, line: seq<byte>)
    requires c in line && Without(line, NUL)
    ensures Found([c], fname, line) == fname + [COLON] + line + [NEWLINE]
  {
    var i :| 0 <= i < |line| && line[i] == c;
    assert OccursAt(line, [c], i);
    assert CStr(line) == line;
  }

  lemma OtherEndings(a: seq<byte>, b: seq<byte>, c: seq<byte>)
    requires b != c
    ensures a + b != a + c
  {
    assert (a + b)[|a|..] == b && (a + c)[|a|..] == c;
  }

  lemma FirstByteOccurs(line: seq<byte>, s: seq<byte>, i: int)
    requires s != [] && OccursAt(line, s, i)
    ensures i < |line| && line[i] == s[0] && s[0] in line
  {
    assert line[i..i + |s|][0] == s[0];
  }

  lemma IndexIs(s: seq<byte>, b: byte, k: nat)
    requires k <= |s| && (k < |s| ==> s[k] == b)
    requires forall j {:trigger s[j]} :: 0 <= j < k ==> s[j] != b
    ensures IndexOf(s, b) == k
  {
  }

  // What a first full piece leaves of its line.
  lemma RestOfLine(t: seq<byte>)
    requires IndexOf(t, NEWLINE) >= BUFSIZE
    ensures AfterPiece(t) == t[BUFSIZE..] && IndexOf(t[BUFSIZE..], NEWLINE) == IndexOf(t, NEWLINE) - BUFSIZE
    ensures AfterLine(t) == if t[BUFSIZE..] == [] then [] else AfterLine(t[BUFSIZE..])
  {
    var k, u := IndexOf(t, NEWLINE), t[BUFSIZE..];
    assert forall j {:trigger u[j]} :: 0 <= j < |u| ==> u[j] == t[BUFSIZE + j];
    hide IndexOf;
    IndexIs(u, NEWLINE, k - BUFSIZE);
  }

  // The first piece of a line in which c occurs is reported, and a newline behind it.
  lemma {:induction false} PieceWithByte(c: byte, fname: seq<byte>, t: seq<byte>) returns (n: nat)
    requires c in t[..IndexOf(t, NEWLINE)] && Without(t, NUL)
    ensures n <= BUFSIZE && |fname| + 1 + n < |PieceReport([c], fname, t)|
    ensures PieceReport([c], fname, t)[|fname| + 1 + n] == NEWLINE
    decreases |t|
  {
    hide Report, Lines, PieceReport, Found;
    n := PieceLen(t);
    PiecesStep([c], fname, t);
    var piece := t[..n];
    if c in piece {
      ByteIsFound(c, fname, piece);
    } else {
      NotFoundOutside(c, fname, piece);
      RestOfLine(t);
      var k := IndexOf(t, NEWLINE);
      assert t[..k] == t[..n] + t[n..][..k - n];
      n := PieceWithByte(c, fname, t[BUFSIZE..]);
    }
  }

  lemma NotFoundOutside(c: byte, fname: seq<byte>, line: seq<byte>)
    requires c !in line
    ensures Found([c], fname, line) == []
  {
    forall i ensures !OccursAt(line, [c], i) {
      if OccursAt(line, [c], i) { FirstByteOccurs(line, [c], i); }
    }
  }

  // Any byte of a long first line tells.
  lemma LongLineTells(c: byte, fname: seq<byte>, t: seq<byte>)
    requires IndexOf(t, NEWLINE) > BUFSIZE && c in t[..IndexOf(t, NEWLINE)] && Without(t, NUL)
    ensures !SameReport([c], fname, t)
  {
    var k := IndexOf(t, NEWLINE);
    var n := PieceWithByte(c, fname, t);
    LinesStep([c], fname, t);
    ByteIsFound(c, fname, t[..k]);
    hide Found, Report, Lines, PieceReport;
    assert Report([c], fname, Lines(t))[|fname| + 1 + n] == t[n];
  }

  // A difference in a later line is one in the whole.
  lemma TellsLater(s: seq<byte>, fname: seq<byte>, t: seq<byte>)
    requires t != [] && IndexOf(t, NEWLINE) <= BUFSIZE && !SameReport(s, fname, AfterLine(t))
    ensures !SameReport(s, fname, t)
  {
    LinesStep(s, fname, t);
    PiecesStep(s, fname, t);
    FittingFirstPiece(s, fname, t);
    hide PieceReport, Report, Lines, IndexOf, Found;
    var u := AfterLine(t);
    OtherEndings(Found(s, fname, t[..IndexOf(t, NEWLINE)]), PieceReport(s, fname, u), Report(s, fname, Lines(u)));
  }

  // The first byte of the first line that is too long is a pattern that tells.
  lemma {:induction false} OneByteTells(fname: seq<byte>, t: seq<byte>) returns (s: seq<byte>)
    requires !LinesFit(t) && Without(t, NUL)
    ensures |s| == 1 && Without(s, NUL) && !SameReport(s, fname, t)
    decreases |t|
  {
    if IndexOf(t, NEWLINE) > BUFSIZE {
      LongLineTells(t[0], fname, t);
      s := [t[0]];
    } else {
      var u := AfterLine(t);
      if LinesFit(u) { LinesFitStep(t); }
      s := OneByteTells(fname, u);
      TellsLater(s, fname, t);
    }
  }

  // The exact condition: on a text file the pieces report what the lines report,
  // whatever the pattern, if and only if every line fits the buffer.  Patterns of
  // one byte are enough to tell.
  lemma StreamingIsExactIffLinesFit(fname: seq<byte>, t: seq<byte>)
    requires Without(t, NUL)
    ensures LinesFit(t) <==> forall s :: Without(s, NUL) ==> SameReport(s, fname, t)
    ensures LinesFit(t) <==> forall s :: |s| == 1 && Without(s, NUL) ==> SameReport(s, fname, t)
  {
    if LinesFit(t) {
      forall s ensures SameReport(s, fname, t) {
        FittingPiecesAreLines(s, fname, t);
      }
    } else {
      var s := OneByteTells(fname, t);
      assert !SameReport(s, fname, t);
    }
  }

  // ---- The patterns that a user can give ----

  const ARG_MAX := 31   // the longest argument that the kernel's buffer holds

  // An argument is what stands behind the last space of a command.
  ghost predicate IsArgument(s: seq<byte>) {
    1 <= |s| <= ARG_MAX && Without(s, NUL) && Without(s, SPACE)
  }

  ghost predicate Blank(line: seq<byte>) {
    forall c :: c in line ==> c == SPACE
  }

  ghost predicate FitOrBlank(t: seq<byte>) {
    forall k :: 0 <= k < |Lines(t)| ==> |Lines(t)[k]| <= BUFSIZE || Blank(Lines(t)[k])
  }

  lemma FitOrBlankStep(t: seq<byte>)
    requires t != []
    ensures FitOrBlank(t) <==>
      (IndexOf(t, NEWLINE) <= BUFSIZE || Blank(t[..IndexOf(t, NEWLINE)])) && FitOrBlank(AfterLine(t))
  {
    hide IndexOf, Blank;
    var u := AfterLine(t);
    assert Lines(t)[0] == t[..IndexOf(t, NEWLINE)] && Lines(t)[1..] == Lines(u);
    assert forall j :: 0 <= j < |Lines(u)| ==> Lines(u)[j] == Lines(t)[j + 1];
    if FitOrBlank(u) {
      assert forall j :: 1 <= j < |Lines(t)| ==> Lines(t)[j] == Lines(u)[j - 1];
    }
  }

  lemma BlankParts(line: seq<byte>, k: nat)
    requires k <= |line| && Blank(line)
    ensures Blank(line[..k]) && Blank(line[k..])
  {
    assert forall c :: c in line[..k] || c in line[k..] ==> c in line;
  }

  lemma NotFoundInBlank(s: seq<byte>, fname: seq<byte>, line: seq<byte>)
    requires IsArgument(s) && Blank(line)
    ensures Found(s, fname, line) == []
  {
    assert s[0] != SPACE;
    forall i ensures !OccursAt(line, s, i) {
      if OccursAt(line, s, i) { FirstByteOccurs(line, s, i); }
    }
  }

  // A line of spaces adds nothing to the report, however long it is.
  lemma {:induction false} BlankLineIsSilent(s: seq<byte>, fname: seq<byte>, t: seq<byte>)
    requires t != [] && IsArgument(s) && Blank(t[..IndexOf(t, NEWLINE)])
    ensures PieceReport(s, fname, t) == PieceReport(s, fname, AfterLine(t))
    ensures Report(s, fname, Lines(t)) == Report(s, fname, Lines(AfterLine(t)))
    decreases |t|
  {
    hide Found, Report, Lines, PieceReport, IsArgument;
    var k := IndexOf(t, NEWLINE);
    LinesStep(s, fname, t);
    PiecesStep(s, fname, t);
    NotFoundInBlank(s, fname, t[..k]);
    assert t[..PieceLen(t)] == t[..k][..PieceLen(t)];
    BlankParts(t[..k], PieceLen(t));
    NotFoundInBlank(s, fname, t[..PieceLen(t)]);
    if k <= BUFSIZE {
      FittingFirstPiece(s, fname, t);
    } else {
      RestOfLine(t);
      var u := t[BUFSIZE..];
      assert u[..k - BUFSIZE] == t[..k][BUFSIZE..];
      BlankLineIsSilent(s, fname, u);
    }
  }

  lemma BlankLineIsSame(s: seq<byte>, fname: seq<byte>, t: seq<byte>)
    requires t != [] && IsArgument(s) && Blank(t[..IndexOf(t, NEWLINE)])
    ensures SameReport(s, fname, t) <==> SameReport(s, fname, AfterLine(t))
  {
    hide PieceReport, Report, Lines, IndexOf, IsArgument;
    BlankLineIsSilent(s, fname, t);
  }

  lemma NotBlankByte(line: seq<byte>) returns (c: byte)
    requires !Blank(line) && Without(line, NUL)
    ensures c in line && IsArgument([c])
  {
    c :| c in line && c != SPACE;
  }

  // A byte other than a space in a line that is too long is an argument that tells.
  lemma {:induction false} ArgumentTells(fname: seq<byte>, t: seq<byte>) returns (s: seq<byte>)
    requires !FitOrBlank(t) && Without(t, NUL)
    ensures IsArgument(s) && !SameReport(s, fname, t)
    decreases |t|
  {
    var k, u := IndexOf(t, NEWLINE), AfterLine(t);
    FitOrBlankStep(t);
    assert Without(u, NUL) && Without(t[..k], NUL);
    hide *;
    if k > BUFSIZE && !Blank(t[..k]) {
      var c := NotBlankByte(t[..k]);
      LongLineTells(c, fname, t);
      s := [c];
    } else {
      s := ArgumentTells(fname, u);
      if k <= BUFSIZE {
        TellsLater(s, fname, t);
      } else {
        BlankLineIsSame(s, fname, t);
      }
    }
  }

  lemma {:induction false} FitOrBlankIsEnough(s: seq<byte>, fname: seq<byte>, t: seq<byte>)
    requires FitOrBlank(t) && IsArgument(s)
    ensures SameReport(s, fname, t)
    decreases |t|
  {
    if t != [] {
      hide IndexOf, Report, Lines, Found, IsArgument;
      var u := AfterLine(t);
      FitOrBlankStep(t);
      FitOrBlankIsEnough(s, fname, u);
      if IndexOf(t, NEWLINE) <= BUFSIZE {
        LinesStep(s, fname, t);
        PiecesStep(s, fname, t);
        FittingFirstPiece(s, fname, t);
      } else {
        BlankLineIsSilent(s, fname, t);
      }
    }
  }

  // The same for the patterns that the kernel hands over, which hold no space:
  // exactly the lines of nothing but spaces may be longer.
  lemma ArgumentsSeeIffFitOrBlank(fname: seq<byte>, t: seq<byte>)
    requires Without(t, NUL)
    ensures FitOrBlank(t) <==> forall s :: IsArgument(s) ==> SameReport(s, fname, t)
  {
    if FitOrBlank(t) {
      forall s | IsArgument(s) ensures SameReport(s, fname, t) {
        FitOrBlankIsEnough(s, fname, t);
      }
    } else {
      var s := ArgumentTells(fname, t);
      assert !SameReport(s, fname, t);
    }
  }
}
