// Two edges of grep's buffer: its last byte, which is looked at before it is
// written, and NUL bytes in a line that is moved to the front.
module GrepBuffer {
  import opened CString
  import opened GrepSpec

  // ---- Where the pieces of a text part ----

  lemma NothingLeft(s: seq<byte>, fname: seq<byte>)
    ensures PieceReport(s, fname, []) == []
  {
  }

  // How many bytes the first piece takes, with its newline.
  ghost function Taken(t: seq<byte>): (m: nat)
    ensures m <= |t| && AfterPiece(t) == t[m..]
  {
    if PieceLen(t) < BUFSIZE && PieceLen(t) < |t| then PieceLen(t) + 1 else PieceLen(t)
  }

  lemma SamePiece(t: seq<byte>, n: nat)
    requires 0 < n <= |t| && t[n - 1] == NEWLINE
    ensures PieceLen(t[..n]) == PieceLen(t) && t[..n][..PieceLen(t)] == t[..PieceLen(t)]
    ensures 0 < Taken(t) <= n && AfterPiece(t[..n]) == t[..n][Taken(t)..]
  {
    var k, h := IndexOf(t, NEWLINE), t[..n];
    assert k < n;
    assert forall j {:trigger h[j]} :: 0 <= j < n ==> h[j] == t[j];
    hide IndexOf;
    IndexIs(h, NEWLINE, k);
  }

  // Pieces part behind every newline.
  lemma {:induction false} SplitAtNewline(s: seq<byte>, fname: seq<byte>, t: seq<byte>, n: nat)
    requires n <= |t| && (n > 0 ==> t[n - 1] == NEWLINE)
    ensures PieceReport(s, fname, t) == PieceReport(s, fname, t[..n]) + PieceReport(s, fname, t[n..])
    decreases |t|
  {
    hide PieceReport, PieceLen, Found, AfterPiece;
    if n == 0 {
      NothingLeft(s, fname);
      assert t[..0] == [] && t[0..] == t;
    } else {
      PiecesStep(s, fname, t);
      PiecesStep(s, fname, t[..n]);
      SamePiece(t, n);
      var m := Taken(t);
      hide Taken;
      var u := t[m..];
      assert u[..n - m] == t[..n][m..] && u[n - m..] == t[n..];
      assert n > m ==> u[n - m - 1] == t[n - 1];
      SplitAtNewline(s, fname, u, n - m);
    }
  }

  // A line start, and no newline from there up to n.
  ghost predicate LineOpen(t: seq<byte>, b: nat, n: nat) {
    && b <= n <= |t| && (b > 0 ==> t[b - 1] == NEWLINE)
    && forall j {:trigger t[j]} :: b <= j < n ==> t[j] != NEWLINE
  }

  // The report up to n, when n lies in the first piece of the line that starts at b.
  lemma ReportUpTo(s: seq<byte>, fname: seq<byte>, t: seq<byte>, b: nat, n: nat)
    requires LineOpen(t, b, n) && n <= b + BUFSIZE
    ensures PieceReport(s, fname, t[..n]) == PieceReport(s, fname, t[..b]) + Found(s, fname, t[b..n])
  {
    hide PieceReport, Found;
    var h := t[..n];
    SplitAtNewline(s, fname, h, b);
    assert h[..b] == t[..b] && h[b..] == t[b..n];
    NothingInEmpty(s, fname);
    NothingLeft(s, fname);
    var v := t[b..n];
    if v != [] {
      PiecesStep(s, fname, v);
      IndexIs(v, NEWLINE, n - b);
      assert PieceLen(v) == n - b && AfterPiece(v) == [] && v[..n - b] == v;
    }
  }

  // The report of the whole text, when the first piece of the line at b ends at e.
  lemma ReportThrough(s: seq<byte>, fname: seq<byte>, t: seq<byte>, b: nat, e: nat)
    requires LineOpen(t, b, e) && b < e <= b + BUFSIZE
    requires e == b + BUFSIZE || e == |t| || t[e] == NEWLINE
    ensures PieceReport(s, fname, t) ==
      PieceReport(s, fname, t[..b]) + Found(s, fname, t[b..e]) + PieceReport(s, fname, t[e..])
  {
    hide PieceReport, Found, IndexOf;
    SplitAtNewline(s, fname, t, b);
    var v := t[b..];
    assert v[..e - b] == t[b..e] && v[e - b..] == t[e..];
    PiecesStep(s, fname, v);
    assert PieceLen(v) == e - b by {
      var k := IndexOf(v, NEWLINE);
      assert k < |v| ==> v[k] == t[b + k];
      assert e - b < |v| ==> v[e - b] == t[e];
    }
    if e < b + BUFSIZE && e < |t| {
      assert AfterPiece(v) == t[e + 1..] == t[e..][1..];
      EmptyPiece(s, fname, t[e..]);
    } else {
      assert AfterPiece(v) == t[e..];
    }
  }

  // ---- The byte behind the buffer ----

  // Where a newline in data[BUFSIZE] tears the text: at the end of the first full
  // block that does not end in one; at the end of the text if there is none.
  ghost function Cut(t: seq<byte>): (c: nat)
    ensures c <= |t|
    decreases |t|
  {
    if |t| < BUFSIZE then |t|
    else if t[BUFSIZE - 1] == NEWLINE then BUFSIZE + Cut(t[BUFSIZE..])
    else BUFSIZE
  }

  ghost function CutAt(junk: bool, t: seq<byte>): (c: nat)
    ensures c <= |t|
  {
    if junk then Cut(t) else 0
  }

  // The report of a text that is torn at c.
  ghost function TornReport(c: nat, s: seq<byte>, fname: seq<byte>, t: seq<byte>): seq<byte>
    requires c <= |t|
  {
    PieceReport(s, fname, t[..c]) + PieceReport(s, fname, t[c..])
  }

  // A line runs over the place of the tear, and began inside the block before it.
  ghost predicate TearsALine(t: seq<byte>) {
    var c := Cut(t);
    c < |t| && t[c] != NEWLINE && BUFSIZE <= c && NEWLINE in t[c - BUFSIZE..c]
  }

  lemma {:induction false} CutIsBlockEnd(t: seq<byte>)
    requires Cut(t) < |t|
    ensures BUFSIZE <= Cut(t) && t[Cut(t) - 1] != NEWLINE
    ensures Cut(t) > BUFSIZE ==> t[Cut(t) - BUFSIZE - 1] == NEWLINE
    decreases |t|
  {
    if t[BUFSIZE - 1] == NEWLINE {
      CutIsBlockEnd(t[BUFSIZE..]);
    }
  }

  lemma {:induction false} LastNewline(t: seq<byte>, lo: nat, n: nat) returns (b: nat)
    requires lo <= n <= |t| && NEWLINE in t[lo..n]
    ensures lo < b && LineOpen(t, b, n) && b > 0
    decreases n
  {
    if t[n - 1] == NEWLINE {
      b := n;
    } else {
      assert t[lo..n] == t[lo..n - 1] + [t[n - 1]];
      b := LastNewline(t, lo, n - 1);
    }
  }

  lemma ReportsMeet(s: seq<byte>, fname: seq<byte>, t: seq<byte>, b: nat, e: nat)
    requires LineOpen(t, b, e) && e <= b + BUFSIZE
    requires e == b || e == b + BUFSIZE || e == |t| || t[e] == NEWLINE
    ensures PieceReport(s, fname, t[..e]) + PieceReport(s, fname, t[e..]) == PieceReport(s, fname, t)
  {
    hide PieceReport, Found;
    if e == b {
      SplitAtNewline(s, fname, t, e);
    } else {
      ReportUpTo(s, fname, t, b, e);
      ReportThrough(s, fname, t, b, e);
    }
  }

  lemma NotTorn(s: seq<byte>, fname: seq<byte>, t: seq<byte>)
    requires !TearsALine(t)
    ensures TornReport(Cut(t), s, fname, t) == PieceReport(s, fname, t)
  {
    hide PieceReport, Found, Cut;
    var c := Cut(t);
    NothingLeft(s, fname);
    if c == |t| {
      assert t[..c] == t && t[c..] == [];
    } else {
      CutIsBlockEnd(t);
      var b := c - BUFSIZE;
      if NEWLINE in t[b..c] {
        b := LastNewline(t, b, c);
      } else {
        assert forall j {:trigger t[j]} :: b <= j < c ==> t[j] == t[b..c][j - b];
      }
      ReportsMeet(s, fname, t, b, c);
    }
  }

  // The first byte of the line that runs over the tear is a pattern that tells.
  lemma TornTells(fname: seq<byte>, t: seq<byte>) returns (s: seq<byte>)
    requires TearsALine(t) && Without(t, NUL)
    ensures |s| == 1 && Without(s, NUL) && TornReport(Cut(t), s, fname, t) != PieceReport(s, fname, t)
  {
    hide PieceReport, Found, Cut, IndexOf;
    var c := Cut(t);
    CutIsBlockEnd(t);
    var b := LastNewline(t, c - BUFSIZE, c);
    s := [t[b]];
    var e := PieceEnd(t, b, c);
    ReportUpTo(s, fname, t, b, c);
    ReportThrough(s, fname, t, b, e);
    assert t[b..c][0] == t[b] && t[b..e][0] == t[b];
    ByteIsFound(t[b], fname, t[b..c]);
    ByteIsFound(t[b], fname, t[b..e]);
    var n := |PieceReport(s, fname, t[..b])| + |fname| + 1 + c - b;
    assert TornReport(c, s, fname, t)[n] == NEWLINE;
    assert PieceReport(s, fname, t)[n] == t[b..e][c - b] == t[c];
  }

  lemma PieceEnd(t: seq<byte>, b: nat, c: nat) returns (e: nat)
    requires LineOpen(t, b, c) && b < c < b + BUFSIZE && c < |t| && t[c] != NEWLINE
    ensures c < e <= b + BUFSIZE && LineOpen(t, b, e)
    ensures e == b + BUFSIZE || e == |t| || t[e] == NEWLINE
  {
    var v := t[c..];
    e := c + IndexOf(v, NEWLINE);
    assert forall j {:trigger t[j]} :: c <= j < e ==> t[j] == v[j - c];
    assert e < |t| ==> t[e] == v[e - c];
    if e > b + BUFSIZE { e := b + BUFSIZE; }
  }

  // The exact condition: a newline in the byte behind the buffer makes no
  // difference to any pattern if and only if it does not tear a line.
  lemma TearIsHarmlessIff(fname: seq<byte>, t: seq<byte>)
    requires Without(t, NUL)
    ensures (forall s :: Without(s, NUL) ==> TornReport(Cut(t), s, fname, t) == PieceReport(s, fname, t))
      <==> !TearsALine(t)
  {
    if TearsALine(t) {
      var s := TornTells(fname, t);
    } else {
      forall s ensures TornReport(Cut(t), s, fname, t) == PieceReport(s, fname, t) {
        NotTorn(s, fname, t);
      }
    }
  }

  // A newline and a line x of 1024 bytes: the tear is before the last byte.
  lemma CutBeforeLastByte(x: seq<byte>)
    requires |x| == BUFSIZE && Without(x, NEWLINE)
    ensures var t := [NEWLINE] + x;
      TearsALine(t) && Cut(t) == BUFSIZE && LineOpen(t, 1, BUFSIZE) && LineOpen(t, 1, BUFSIZE + 1)
  {
    var t := [NEWLINE] + x;
    assert t[0] == NEWLINE;
    forall j {:trigger t[j]} | 1 <= j <= BUFSIZE ensures t[j] != NEWLINE {
      assert t[j] == x[j - 1];
    }
    assert Cut(t) == BUFSIZE;
    hide Cut, Without;
    assert t[0..BUFSIZE][0] == NEWLINE;
  }

  lemma PartsOfLine(x: seq<byte>)
    requires |x| == BUFSIZE
    ensures var t := [NEWLINE] + x;
      && t[..1] == [NEWLINE] && t[1..BUFSIZE] == x[..BUFSIZE - 1] && t[1..BUFSIZE + 1] == x
      && t[BUFSIZE..] == [x[BUFSIZE - 1]] && t[BUFSIZE + 1..] == []
  {
  }

  lemma LineIsWhole(fname: seq<byte>, x: seq<byte>, a: byte)
    requires |x| == BUFSIZE && Without(x, NEWLINE) && Without(x, NUL) && x[0] == a
    ensures PieceReport([a], fname, [NEWLINE] + x) == fname + [COLON] + x + [NEWLINE]
  {
    CutBeforeLastByte(x);
    ByteIsFound(a, fname, x);
    hide *;
    var t := [NEWLINE] + x;
    PartsOfLine(x);
    ReportThrough([a], fname, t, 1, BUFSIZE + 1);
    OnlyNewline([a], fname);
    NothingLeft([a], fname);
  }

  lemma TornParts(s: seq<byte>, fname: seq<byte>, x: seq<byte>)
    requires |x| == BUFSIZE && Without(x, NEWLINE)
    ensures TornReport(BUFSIZE, s, fname, [NEWLINE] + x) ==
      Found(s, fname, x[..BUFSIZE - 1]) + PieceReport(s, fname, [x[BUFSIZE - 1]])
  {
    ghost var t, found := [NEWLINE] + x, Found(s, fname, x[..BUFSIZE - 1]);
    assert PieceReport(s, fname, t[..BUFSIZE]) == found by {
      hide *;
      CutBeforeLastByte(x);
      PartsOfLine(x);
      ReportUpTo(s, fname, t, 1, BUFSIZE);
      OnlyNewline(s, fname);
      assert [] + found == found;
    }
    hide PieceReport, Found;
    PartsOfLine(x);
  }

  lemma LastByteIsTornOff(fname: seq<byte>, x: seq<byte>, a: byte)
    requires |x| == BUFSIZE && Without(x, NEWLINE) && Without(x, NUL) && x[0] == x[BUFSIZE - 1] == a
    ensures TornReport(BUFSIZE, [a], fname, [NEWLINE] + x) ==
      (fname + [COLON] + x[..BUFSIZE - 1] + [NEWLINE]) + (fname + [COLON] + [a] + [NEWLINE])
  {
    var y := x[..BUFSIZE - 1];
    assert y[0] == a && Without(y, NUL) && a != NUL && a != NEWLINE;
    ByteIsFound(a, fname, y);
    hide TornReport, PieceReport, Found, Without;
    ReportOfByte(fname, a);
    TornParts([a], fname, x);
  }

  lemma OnlyNewline(s: seq<byte>, fname: seq<byte>)
    ensures PieceReport(s, fname, [NEWLINE]) == []
  {
    EmptyPiece(s, fname, [NEWLINE]);
    NothingLeft(s, fname);
    assert [NEWLINE][1..] == [];
  }

  lemma ReportOfByte(fname: seq<byte>, a: byte)
    requires a != NUL && a != NEWLINE
    ensures PieceReport([a], fname, [a]) == fname + [COLON] + [a] + [NEWLINE]
  {
    hide PieceReport, Found;
    var t := [a];
    assert t[..0] == [] && t[..1] == t && t[0..1] == t && t[0] == a;
    ReportUpTo([a], fname, t, 0, 1);
    NothingLeft([a], fname);
    ByteIsFound(a, fname, t);
  }

  lemma OneLetterIsTornOff(fname: seq<byte>)
    ensures TearsALine([NEWLINE] + Letters(BUFSIZE))
    ensures PieceReport([97], fname, [NEWLINE] + Letters(BUFSIZE)) == fname + [COLON] + Letters(BUFSIZE) + [NEWLINE]
    ensures TornReport(BUFSIZE, [97], fname, [NEWLINE] + Letters(BUFSIZE)) ==
      (fname + [COLON] + Letters(BUFSIZE - 1) + [NEWLINE]) + (fname + [COLON] + Letters(1) + [NEWLINE])
  {
    hide PieceReport, TearsALine;
    CutBeforeLastByte(Letters(BUFSIZE));
    assert Letters(BUFSIZE)[..BUFSIZE - 1] == Letters(BUFSIZE - 1) && Letters(1) == [97];
    LineIsWhole(fname, Letters(BUFSIZE), 97);
    LastByteIsTornOff(fname, Letters(BUFSIZE), 97);
  }

  ghost function Letters(n: nat): seq<byte> {
    seq(n, _ => 97)
  }

  // ---- What the search sees of a text with NUL bytes ----

  // Byte j is in the first piece of its line, which starts at b, behind a NUL at i.
  ghost predicate Behind(t: seq<byte>, b: nat, i: nat, j: nat) {
    && b <= i < j < |t| && j < b + BUFSIZE && t[i] == NUL
    && (b > 0 ==> t[b - 1] == NEWLINE)
    && forall m {:trigger t[m]} :: b <= m <= j ==> t[m] != NEWLINE
  }

  ghost predicate BehindNul(t: seq<byte>, j: nat) {
    exists b: nat, i: nat :: Behind(t, b, i, j)
  }

  // u is t, with other bytes behind a NUL of the first piece of a line.
  ghost predicate SeenAs(t: seq<byte>, u: seq<byte>) {
    && |u| == |t|
    && (forall j {:trigger u[j]} :: 0 <= j < |t| ==> (u[j] == NEWLINE <==> t[j] == NEWLINE))
    && (forall j {:trigger u[j]} :: 0 <= j < |t| ==> u[j] == t[j] || BehindNul(t, j))
  }

  // What grep prints for a file with text t: its report, of the text as it is seen,
  // torn if the byte behind the buffer was a newline.
  ghost predicate Stretch(junk: bool, s: seq<byte>, fname: seq<byte>, t: seq<byte>, out: seq<byte>) {
    exists u, v :: StretchOf(CutAt(junk, t), s, fname, t, u, v, out)
  }

  ghost predicate StretchOf(c: nat, s: seq<byte>, fname: seq<byte>, t: seq<byte>, u: seq<byte>, v: seq<byte>,
                            out: seq<byte>)
  {
    && c <= |t| && SeenAs(t[..c], u) && SeenAs(t[c..], v)
    && out == PieceReport(s, fname, u) + PieceReport(s, fname, v)
  }

  lemma SeenItself(t: seq<byte>)
    ensures SeenAs(t, t)
  {
  }

  lemma SeenTwice(t: seq<byte>, u: seq<byte>, v: seq<byte>)
    requires SeenAs(t, u) && SeenAs(u, v)
    ensures SeenAs(t, v)
  {
    forall j {:trigger v[j]} | 0 <= j < |t|
      ensures (v[j] == NEWLINE <==> t[j] == NEWLINE) && (v[j] == t[j] || BehindNul(t, j))
    {
      assert u[j] == NEWLINE <==> t[j] == NEWLINE;
      if v[j] != t[j] && u[j] == t[j] {
        var b: nat, i: nat :| Behind(u, b, i, j);
        BehindStays(t, u, b, i, j);
      }
    }
  }

  lemma BehindStays(t: seq<byte>, u: seq<byte>, b: nat, i: nat, j: nat)
    requires SeenAs(t, u) && Behind(u, b, i, j)
    ensures BehindNul(t, j)
  {
    forall m {:trigger t[m]} | b <= m <= j ensures t[m] != NEWLINE {
      assert u[m] != NEWLINE;
    }
    assert b > 0 ==> u[b - 1] == NEWLINE && t[b - 1] == NEWLINE;
    if t[i] == NUL {
      assert Behind(t, b, i, j);
    } else {
      assert u[i] != t[i];
      var b1: nat, i1: nat :| Behind(t, b1, i1, i);
      assert b1 == b;
      assert Behind(t, b, i1, j);
    }
  }

  lemma NothingHidden(t: seq<byte>, u: seq<byte>)
    requires SeenAs(t, u) && Without(t, NUL)
    ensures u == t
  {
    assert forall j {:trigger u[j]} :: 0 <= j < |t| ==> u[j] == t[j];
  }

  // A file without NUL bytes whose lines are not torn gets the report of its pieces.
  lemma StretchOfText(junk: bool, s: seq<byte>, fname: seq<byte>, t: seq<byte>, out: seq<byte>)
    requires Stretch(junk, s, fname, t, out) && Without(t, NUL)
    ensures out == TornReport(CutAt(junk, t), s, fname, t)
    ensures !junk || !TearsALine(t) ==> out == PieceReport(s, fname, t)
  {
    hide PieceReport, SeenAs, Cut, TearsALine;
    var c := CutAt(junk, t);
    var u, v :| StretchOf(c, s, fname, t, u, v, out);
    NothingHidden(t[..c], u);
    NothingHidden(t[c..], v);
    if junk {
      if !TearsALine(t) { NotTorn(s, fname, t); }
    } else {
      NothingLeft(s, fname);
      assert t[..0] == [] && t[0..] == t;
    }
  }

  // ---- What grep prints for any file at all ----

  // "name:piece", up to the piece's first NUL, for each piece that is picked.
  ghost function Picked(fname: seq<byte>, pieces: seq<seq<byte>>, shown: seq<bool>): seq<byte>
    requires |shown| == |pieces|
  {
    if pieces == [] then []
    else (if shown[0] then fname + [COLON] + CStr(pieces[0]) + [NEWLINE] else [])
         + Picked(fname, pieces[1..], shown[1..])
  }

  // An occurrence before the first NUL is never missed, and a piece without NUL
  // is shown exactly if it contains the pattern.
  ghost predicate Fair(s: seq<byte>, piece: seq<byte>, shown: bool) {
    && (Contains(CStr(piece), s) ==> shown)
    && (Without(piece, NUL) ==> (shown <==> Contains(piece, s)))
  }

  lemma FirstPieceSeen(t: seq<byte>, u: seq<byte>)
    requires SeenAs(t, u) && t != []
    ensures PieceLen(u) == PieceLen(t) && Taken(u) == Taken(t)
    ensures SeenAs(AfterPiece(t), AfterPiece(u))
  {
    var k := IndexOf(t, NEWLINE);
    assert forall j {:trigger u[j]} :: 0 <= j < k ==> t[j] != NEWLINE;
    hide IndexOf;
    IndexIs(u, NEWLINE, k);
    var m := Taken(t);
    var t1, u1 := t[m..], u[m..];
    forall j {:trigger u1[j]} | 0 <= j < |t1|
      ensures (u1[j] == NEWLINE <==> t1[j] == NEWLINE) && (u1[j] == t1[j] || BehindNul(t1, j))
    {
      assert u1[j] == u[m + j] && t1[j] == t[m + j];
      if u1[j] != t1[j] {
        var b: nat, i: nat :| Behind(t, b, i, m + j);
        BehindInTail(t, m, b, i, j);
      }
    }
  }

  lemma BehindInTail(t: seq<byte>, m: nat, b: nat, i: nat, j: nat)
    requires t != [] && m == Taken(t) && Behind(t, b, i, m + j)
    ensures BehindNul(t[m..], j)
  {
    hide IndexOf;
    var t1, k := t[m..], IndexOf(t, NEWLINE);
    assert b >= m by {
      assert k < |t| ==> t[k] == NEWLINE;
      assert b > 0 ==> t[b - 1] == NEWLINE;
    }
    assert forall n {:trigger t1[n]} :: 0 <= n < |t1| ==> t1[n] == t[m + n];
    assert Behind(t1, b - m, i - m, j);
  }

  lemma SeenToNul(t: seq<byte>, u: seq<byte>, k: nat)
    requires SeenAs(t, u) && k <= |t|
    ensures CStr(u[..k]) == CStr(t[..k])
    ensures Without(t[..k], NUL) ==> u[..k] == t[..k]
  {
    var p, q := t[..k], u[..k];
    var n := IndexOf(p, NUL);
    assert forall j {:trigger q[j]} :: 0 <= j < k ==> q[j] == u[j] && p[j] == t[j];
    hide IndexOf;
    forall j {:trigger q[j]} | 0 <= j <= n && j < k ensures q[j] == p[j] {
      assert forall i :: 0 <= i < j ==> t[i] == p[i] != NUL;
    }
    IndexIs(q, NUL, n);
  }

  lemma SeenIsFair(s: seq<byte>, p: seq<byte>, q: seq<byte>)
    requires CStr(q) == CStr(p) && (Without(p, NUL) ==> q == p)
    ensures Fair(s, p, Contains(q, s))
  {
    hide IndexOf;
    if Contains(CStr(p), s) && s != [] {
      var i :| OccursAt(CStr(q), s, i);
      assert q[i..i + |s|] == CStr(q)[i..i + |s|];
      assert OccursAt(q, s, i);
    }
  }

  // Whatever the bytes of a file are, its report consists of beginnings of its own
  // pieces, in order, each under the file's name, and it is fair to every piece.
  lemma {:induction false} AnyFileIsReported(s: seq<byte>, fname: seq<byte>, t: seq<byte>, u: seq<byte>)
    returns (shown: seq<bool>)
    requires SeenAs(t, u)
    ensures |shown| == |Pieces(t)| && PieceReport(s, fname, u) == Picked(fname, Pieces(t), shown)
    ensures forall k :: 0 <= k < |shown| ==> Fair(s, Pieces(t)[k], shown[k])
    decreases |t|
  {
    if t == [] { return []; }
    FirstPieceSeen(t, u);
    var k := PieceLen(t);
    SeenToNul(t, u, k);
    SeenIsFair(s, t[..k], u[..k]);
    PiecesStep(s, fname, u);
    hide PieceLen, AfterPiece, SeenAs, Fair, Contains, PieceReport;
    var rest := AnyFileIsReported(s, fname, AfterPiece(t), AfterPiece(u));
    shown := [Contains(u[..k], s)] + rest;
    assert Pieces(t)[1..] == Pieces(AfterPiece(t)) && shown[1..] == rest;
    forall n | 0 <= n < |shown| ensures Fair(s, Pieces(t)[n], shown[n]) {
      if n > 0 { assert Pieces(t)[n] == Pieces(AfterPiece(t))[n - 1]; }
    }
  }

  lemma {:induction false} PickedJoin(fname: seq<byte>, a: seq<seq<byte>>, b: seq<seq<byte>>, x: seq<bool>,
                                      y: seq<bool>)
    requires |a| == |x| && |b| == |y|
    ensures Picked(fname, a + b, x + y) == Picked(fname, a, x) + Picked(fname, b, y)
  {
    if a == [] {
      assert a + b == b && x + y == y;
    } else {
      assert (a + b)[1..] == a[1..] + b && (x + y)[1..] == x[1..] + y;
      PickedJoin(fname, a[1..], b, x[1..], y);
    }
  }

  // What is printed for any file, with any byte behind the buffer: beginnings of the
  // pieces of the two parts, in order, and the choice is fair to every piece.
  lemma StretchIsFair(junk: bool, s: seq<byte>, fname: seq<byte>, t: seq<byte>, out: seq<byte>)
    returns (pieces: seq<seq<byte>>, shown: seq<bool>)
    requires Stretch(junk, s, fname, t, out)
    ensures pieces == Pieces(t[..CutAt(junk, t)]) + Pieces(t[CutAt(junk, t)..])
    ensures |shown| == |pieces| && out == Picked(fname, pieces, shown)
    ensures forall k :: 0 <= k < |shown| ==> Fair(s, pieces[k], shown[k])
  {
    hide PieceReport, Picked, Fair, SeenAs, Pieces, Cut;
    var c := CutAt(junk, t);
    var u, v :| StretchOf(c, s, fname, t, u, v, out);
    var x := AnyFileIsReported(s, fname, t[..c], u);
    var y := AnyFileIsReported(s, fname, t[c..], v);
    PickedJoin(fname, Pieces(t[..c]), Pieces(t[c..]), x, y);
    pieces, shown := Pieces(t[..c]) + Pieces(t[c..]), x + y;
  }
}
