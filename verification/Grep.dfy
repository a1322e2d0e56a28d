// The streaming search of syscalls/ece391grep.c, on top of the descriptor calls.
module Grep {
  import opened CString
  import opened FileSystem
  import opened Descriptors
  import opened GrepSpec
  import opened GrepBuffer
  import Disk

  // ---- One line ----

  method Fdputs(k: Files, bytes: seq<byte>)
    requires k.Started()
    modifies k`stdout
    ensures k.stdout == old(k.stdout) + bytes
  {
    var _ := k.Write(1, bytes);
  }

  lemma SliceOfSlice(m: seq<byte>, start: nat, end: nat, a: nat, n: nat)
    requires start <= end <= |m| && a + n <= end - start
    ensures m[start..end][a..a + n] == m[start + a..start + a + n]
  {
    var u, v := m[start..end][a..a + n], m[start + a..start + a + n];
    assert forall k {:trigger u[k]} :: 0 <= k < n ==> u[k] == m[start..end][a + k] == v[k];
  }

  // Whether the pattern starts at data[check], inside the line that ends at `end`.
  // The first byte of an empty pattern is its terminator.
  method StartsAt(s: seq<byte>, data: array<byte>, check: nat, end: nat, ghost start: nat, ghost line: seq<byte>)
    returns (yes: bool)
    requires start <= check < end < data.Length && data[end] == NUL
    requires line == data[start..end] && Without(s, NUL)
    ensures yes <==> if s == [] then line[check - start] == NUL else OccursAt(line, s, check - start)
  {
    ghost var a := check - start;
    if s != [] && OccursAt(line, s, a) {
      FirstByteOccurs(line, s, a);
    }
    assert data[check] == line[a];
    yes := false;
    var first := if s == [] then NUL else s[0];
    if first == data[check] {
      var differs := Strncmp(data, check, s, |s|, end);
      yes := differs == 0;
      assert s[..|s|] == s;
      if check + |s| <= end {
        SliceOfSlice(data[..], start, end, a, |s|);
        assert data[..][start..end] == line && data[..][check..check + |s|] == data[check..check + |s|];
        assert line[a..a + |s|] == data[check..check + |s|];
      }
    }
  }

  // The pattern starts at none of the first n bytes.
  ghost predicate NoneBefore(line: seq<byte>, s: seq<byte>, n: nat)
    requires n <= |line|
  {
    if s == [] then Without(line[..n], NUL) else forall i :: 0 <= i < n ==> !OccursAt(line, s, i)
  }

  // Prints "name:line" if the pattern occurs in the line at data[start..end].
  method SearchLine(k: Files, s: seq<byte>, fname: seq<byte>, data: array<byte>, start: nat, end: nat,
                    ghost line: seq<byte>)
    requires k.Started() && Without(s, NUL)
    requires start <= end < data.Length && data[end] == NUL && line == data[start..end]
    modifies k`stdout
    ensures k.stdout == old(k.stdout) + Found(s, fname, line)
  {
    var check := start;
    while check < end
      invariant start <= check <= end
      invariant k.stdout == old(k.stdout)
      invariant NoneBefore(line, s, check - start)
    {
      var yes := StartsAt(s, data, check, end, start, line);
      if yes {
        assert line[check - start] in line;
        PrintLine(k, fname, data, start, end, line);
        return;
      }
      check := check + 1;
    }
    assert line[..|line|] == line;
    assert s != [] && Contains(line, s) ==> exists i :: OccursAt(line, s, i);
  }

  method PrintLine(k: Files, fname: seq<byte>, data: array<byte>, start: nat, end: nat, ghost line: seq<byte>)
    requires k.Started() && start <= end < data.Length && data[end] == NUL && line == data[start..end]
    modifies k`stdout
    ensures k.stdout == old(k.stdout) + fname + [COLON] + CStr(line) + [NEWLINE]
  {
    Fdputs(k, fname);
    Fdputs(k, [COLON]);
    ghost var n := IndexOf(line, NUL);
    assert forall j {:trigger data[j]} :: start <= j < end ==> data[j] == line[j - start];
    var len := Strlen(data, start, start + n);
    Fdputs(k, data[start..start + len]);
    Fdputs(k, [NEWLINE]);
  }

  // The piece at start..end of the buffer is the next piece of the text, and what
  // follows it begins behind its newline, or at the end of the buffer.
  lemma NextPiece(s: seq<byte>, fname: seq<byte>, text: seq<byte>, start: nat, end: nat, last: nat)
    requires start <= end <= last <= |text|
    requires forall j :: start <= j < end ==> text[j] != NEWLINE
    requires if end < last then text[end] == NEWLINE && end - start < BUFSIZE
             else end - start == BUFSIZE || (end == |text| && end - start <= BUFSIZE)
    ensures PieceReport(s, fname, text[start..]) ==
      Found(s, fname, text[start..end]) + PieceReport(s, fname, text[if end < last then end + 1 else last..])
  {
    hide Found, Report, Pieces, PieceReport, IndexOf;
    var t, k := text[start..], end - start;
    assert t[..k] == text[start..end];
    assert forall j {:trigger t[j]} :: 0 <= j < k ==> t[j] == text[start + j];
    if t == [] {
      NothingInEmpty(s, fname);
      NothingLeft(s, fname);
    } else {
      PiecesStep(s, fname, t);
      assert PieceLen(t) == k;
      assert AfterPiece(t) == text[if end < last then end + 1 else last..];
    }
  }

  // ---- One buffer ----

  // The buffer holds the text from p on: its first `last` bytes are unread by
  // the search up to `start`, and no newline is left before that.
  ghost predicate Holds(data: array<byte>, text: seq<byte>, p: nat, start: nat, last: nat)
    reads data
  {
    && data.Length == BUFSIZE + 1 && start <= last <= BUFSIZE && p + last <= |text|
    && (forall j {:trigger data[j]} :: start <= j < last ==> data[j] == text[p + j])
    && (forall j {:trigger data[j]} :: 0 <= j < start ==> data[j] != NEWLINE)
  }

  // The search sees `seen` instead of text: other bytes in q..r, behind a NUL.
  ghost predicate Veils(text: seq<byte>, seen: seq<byte>, q: nat, r: nat) {
    && SeenAs(text, seen) && q <= r <= |text|
    && seen[..q] == text[..q] && seen[r..] == text[r..]
  }

  // Moves the partial line data[start..end] to the front of the buffer, up to its
  // first NUL; what is behind that is then seen as what stood there before.
  method ShiftDown(data: array<byte>, start: nat, end: nat, ghost text: seq<byte>, ghost p: nat)
    returns (ghost seen: seq<byte>)
    requires Holds(data, text, p, start, end) && 0 < start && text[p + start - 1] == NEWLINE
    requires forall j {:trigger data[j]} :: start <= j < end ==> data[j] != NEWLINE
    modifies data
    ensures Veils(text, seen, p + start, p + end) && Holds(data, seen, p + start, 0, end - start)
    ensures data[BUFSIZE] == if end == BUFSIZE then NUL else old(data[BUFSIZE])
  {
    ghost var line, m := data[start..end], data[..];
    ghost var n := IndexOf(line, NUL);
    assert forall j {:trigger data[j]} :: start <= j < end ==> data[j] == line[j - start];
    data[end] := NUL;
    Strcpy(data, 0, start, start + n);
    ghost var now := data[..end - start];
    seen := text[..p + start] + now + text[p + end..];
    Moved(text, seen, p, start, end, n, m, now);
  }

  lemma Moved(text: seq<byte>, seen: seq<byte>, p: nat, start: nat, end: nat, n: nat, m: seq<byte>, now: seq<byte>)
    requires 0 < start <= end <= BUFSIZE < |m| && p + end <= |text| && text[p + start - 1] == NEWLINE
    requires n <= end - start == |now| && (n < end - start ==> m[start + n] == NUL)
    requires forall j {:trigger m[j]} :: start <= j < end ==> m[j] == text[p + j]
    requires forall j {:trigger m[j]} :: 0 <= j < end ==> m[j] != NEWLINE
    requires forall j {:trigger now[j]} :: 0 <= j < |now| ==> now[j] == if j <= n then m[start + j] else m[j]
    requires seen == text[..p + start] + now + text[p + end..]
    ensures Veils(text, seen, p + start, p + end)
  {
    var q := p + start;
    forall j {:trigger text[j]} | q <= j < p + end ensures text[j] != NEWLINE {
      assert m[j - p] == text[j];
    }
    forall j {:trigger seen[j]} | 0 <= j < |text|
      ensures (seen[j] == NEWLINE <==> text[j] == NEWLINE) && (seen[j] == text[j] || BehindNul(text, j))
    {
      if q <= j < p + end {
        assert seen[j] == now[j - q];
        if j > q + n {
          assert m[start + n] == text[q + n];
          assert Behind(text, q, q + n, j);
        } else {
          assert m[start + (j - q)] == text[j];
        }
      }
    }
  }

  lemma Appended(out: seq<byte>, found: seq<byte>, rest: seq<byte>)
    ensures (out + found) + rest == out + (found + rest)
  {
  }

  // Ends the line at data[start..end] with a NUL and searches it.
  method SearchPiece(k: Files, s: seq<byte>, fname: seq<byte>, data: array<byte>, start: nat, end: nat,
                     last: nat, ghost text: seq<byte>, ghost p: nat, ghost goal: seq<byte>)
    requires k.Started() && Without(s, NUL)
    requires Holds(data, text, p, start, last) && start <= end <= last
    requires forall j {:trigger data[j]} :: start <= j < end ==> data[j] != NEWLINE
    requires if end < last then data[end] == NEWLINE else end - start == BUFSIZE || p + end == |text|
    requires k.stdout + PieceReport(s, fname, text[p + start..]) == goal
    modifies k`stdout, data
    ensures Holds(data, text, p, if end < last then end + 1 else last, last)
    ensures k.stdout + PieceReport(s, fname, text[p + if end < last then end + 1 else last..]) == goal
    ensures data[BUFSIZE] == if end == BUFSIZE then NUL else old(data[BUFSIZE])
  {
    hide PieceReport, Found;
    ghost var line, next := text[p + start..p + end], p + if end < last then end + 1 else last;
    assert forall j :: p + start <= j < p + end ==> text[j] == data[j - p];
    NextPiece(s, fname, text, p + start, p + end, p + last);
    Appended(k.stdout, Found(s, fname, line), PieceReport(s, fname, text[next..]));
    data[end] := NUL;
    assert data[start..end] == line;
    SearchLine(k, s, fname, data, start, end, line);
  }

  // Where the line that starts at `start` ends: at its newline, or at `last`.
  method LineEnd(data: array<byte>, start: nat, last: nat) returns (end: nat)
    requires start <= last < data.Length
    ensures start <= end <= last && (end < last ==> data[end] == NEWLINE)
    ensures forall j {:trigger data[j]} :: start <= j < end ==> data[j] != NEWLINE
  {
    end := start;
    while end < last && data[end] != NEWLINE
      invariant start <= end <= last
      invariant forall j {:trigger data[j]} :: start <= j < end ==> data[j] != NEWLINE
    {
      end := end + 1;
    }
  }

  // One pass over a filled buffer: searches every line that is complete, moves a
  // partial last line to the front, and answers how long it is.  text[p..] is
  // the part of the file that begins where the buffer does.  A newline in the byte
  // behind the buffer has an unfinished last line searched at once.
  method ScanBuffer(k: Files, s: seq<byte>, fname: seq<byte>, data: array<byte>, filled: nat, cnt: nat,
                    ghost text: seq<byte>, ghost p: nat) returns (last: nat, ghost seen: seq<byte>)
    requires k.Started() && Without(s, NUL)
    requires Holds(data, text, p, 0, filled)
    requires filled < BUFSIZE ==> p + filled == |text|
    requires cnt == 0 ==> filled < BUFSIZE
    requires filled == BUFSIZE && data[BUFSIZE] == NEWLINE ==>
      text[p + BUFSIZE - 1] == NEWLINE || p + filled == |text|
    modifies k`stdout, data
    ensures last <= filled && last < BUFSIZE && Holds(data, seen, p + filled - last, 0, last)
    ensures cnt == 0 || (filled == BUFSIZE && old(data[BUFSIZE]) == NEWLINE) ==> last == 0
    ensures Veils(text, seen, p + filled - last, p + filled)
    ensures last > 0 ==> p + filled > last && text[p + filled - last - 1] == NEWLINE
    ensures k.stdout + PieceReport(s, fname, text[p + filled - last..]) ==
      old(k.stdout) + PieceReport(s, fname, text[p..])
    ensures data[BUFSIZE] ==
      if filled == BUFSIZE && text[p + BUFSIZE - 1] != NEWLINE then NUL else old(data[BUFSIZE])
  {
    hide PieceReport, Found, SeenAs;
    ghost var goal, junk := k.stdout + PieceReport(s, fname, text[p..]), data[BUFSIZE];
    SeenItself(text);
    last, seen := filled, text;
    var line_start := 0;
    while true
      invariant last == filled && Holds(data, text, p, line_start, last)
      invariant k.stdout + PieceReport(s, fname, text[p + line_start..]) == goal
      invariant line_start > 0 ==> text[p + line_start - 1] == NEWLINE
      invariant data[BUFSIZE] == junk && (filled > 0 ==> line_start < filled)
      decreases BUFSIZE - line_start
    {
      var line_end := LineEnd(data, line_start, last);
      assert filled == BUFSIZE ==> data[BUFSIZE - 1] == text[p + BUFSIZE - 1];
      if data[line_end] != NEWLINE && cnt != 0 && line_start != 0 {
        seen := ShiftDown(data, line_start, line_end, text, p);
        last := last - line_start;
        return;
      }
      SearchPiece(k, s, fname, data, line_start, line_end, last, text, p, goal);
      line_start := line_end + 1;
      if line_start >= last {
        last := 0;
        return;
      }
    }
  }

  // ---- A whole file ----

  // The bytes that reads on an opened entry hand over: none from the clock.
  ghost function TextOf(img: Image, d: Dentry): seq<byte>
    requires Opened(d).inode < 256
  {
    if OpsFor(d.ftype) == File then FileAt(img, Opened(d)) else []
  }

  // On a disk of known parts: the file of a type 2 entry's own inode.
  lemma TextOnDisk(img: Image, d: Disk.Parts, i: nat)
    requires Disk.Sound(d) && Disk.Laid(img, d) && Disk.FirstOfName(d, i)
    requires d.entries[i].ftype % 256 == 2 && d.entries[i].inode % 256 < |d.nodes|
    ensures HasTables(img) && Lookup(img, d.entries[i].name, 0) == Option.Some(i) && i < Entries(img)
    ensures TextOf(img, EntryOf(img, i)) == Disk.Bytes(d, d.entries[i].inode % 256)
  {
    Disk.FirstIsFound(img, d, i);
    Disk.LaidEntryReads(img, d, i);
    Disk.ContentIsBytes(img, d, d.entries[i].inode % 256);
    hide Disk.Laid, Disk.Bytes, Content, ValidInode, HasTables, Lookup, EntryOf, NameOf, Disk.Sound;
  }

  // An open descriptor once it stands at a position; the clock has none.
  ghost function MovedTo(f: FileDesc, pos: nat): FileDesc {
    if f.ops == File then f.(fposition := pos) else f
  }

  // The descriptor has handed over the first `at` bytes of its file.
  ghost predicate At(img: Image, f: FileDesc, file: seq<byte>, at: nat) {
    && f.inode < 256 && at <= |file|
    && match f.ops
       case File => f.fposition == at && file == FileAt(img, f)
       case Rtc => file == []
       case _ => false
  }

  lemma AtMoved(img: Image, f: FileDesc, file: seq<byte>, at: nat, to: nat)
    requires At(img, f, file, at) && to <= |file|
    ensures At(img, MovedTo(f, to), file, to)
  {
  }

  // One refill: the file's next bytes land behind the partial line.
  method Refill(k: Files, fd: nat, data: array<byte>, last: nat, ghost file: seq<byte>, ghost at: nat)
    returns (cnt: int)
    requires k.Started() && fd in k.Table() && fd >= 2 && last < BUFSIZE < data.Length
    requires At(k.img, k.Table()[fd], file, at)
    modifies k.fd, data
    ensures k.Started() && 0 <= cnt <= BUFSIZE - last && at + cnt <= |file|
    ensures k.Table() == old(k.Table())[fd := MovedTo(old(k.Table())[fd], at + cnt)]
    ensures data[..] == Splice(old(data[..]), last, file[at..at + cnt])
    ensures last + cnt < BUFSIZE ==> at + cnt == |file|
  {
    hide Content, ValidInode, Word, Padded, FileAt, At, ReadChunk, Splice, WellFormed, MovedTo, Advanced;
    NextChunk(k.img, k.Table()[fd], file, at, BUFSIZE - last);
    cnt := k.Read(fd, data, last, BUFSIZE - last);
  }

  lemma NextChunk(img: Image, f: FileDesc, file: seq<byte>, at: nat, n: nat)
    requires HasTables(img) && At(img, f, file, at)
    ensures var c := ReadChunk(img, f, n);
      && f.ops != Dir && at + |c| <= |file| && c == file[at..at + |c|] && |c| <= n
      && (|c| < n ==> at + |c| == |file|)
      && Advanced(img, f, n) == MovedTo(f, at + |c|)
  {
    hide FileAt;
  }

  // Between two refills the search stands in the part `text` of the file: the one up to
  // a tear or the one behind it.  The part starts at `from`, `seen` is what is seen of it,
  // `pos` how much of it has been read, `base` the output before it.
  datatype Progress = Progress(from: nat, pos: nat, text: seq<byte>, seen: seq<byte>, base: seq<byte>)

  ghost predicate Follows(g: Progress, last: nat) {
    && SeenAs(g.text, g.seen) && |g.seen| == |g.text| && last <= g.pos <= |g.text| && last < BUFSIZE
    && g.seen[g.pos..] == g.text[g.pos..]
  }

  // Which part is read: the one before the cut c as long as a newline stands behind
  // the buffer, the one from c on after that.
  ghost predicate InPart(torn: bool, junk: bool, file: seq<byte>, c: nat, g: Progress, last: nat) {
    && c == CutAt(junk, file) && g.from + g.pos <= |file|
    && if torn then junk && g.from == 0 && g.text == file[..c] && g.pos <= c && Cut(file[g.pos..]) == c - g.pos
                    && (g.pos < |file| ==> last == 0 && g.seen == g.text)
       else g.from == c && g.text == file[c..]
  }

  // Before a tear the output so far is the report of what the search has left behind;
  // after one, of the whole first part and that.
  ghost predicate Printed(torn: bool, s: seq<byte>, fname: seq<byte>, file: seq<byte>, c: nat, g: Progress,
                          last: nat, out0: seq<byte>, out: seq<byte>)
    requires c <= |file| && last <= g.pos <= |g.seen|
  {
    && g.base == (if torn then out0 else out0 + PieceReport(s, fname, file[..c]))
    && out + PieceReport(s, fname, g.seen[g.pos - last..]) == g.base + PieceReport(s, fname, g.seen)
  }

  // The cut c is the block end n, unless a newline stands before it.
  ghost predicate AtBlockEnd(file: seq<byte>, c: nat, n: nat) {
    && 0 < n <= |file| && n <= c
    && if file[n - 1] == NEWLINE then Cut(file[n..]) == c - n else n == c
  }

  // The bytes of a refill stay inside the part that is read.
  lemma InsidePart(torn: bool, junk: bool, file: seq<byte>, c: nat, g: Progress, last: nat, cnt: nat)
    requires InPart(torn, junk, file, c, g, last) && Follows(g, last)
    requires last + cnt <= BUFSIZE && g.from + g.pos + cnt <= |file|
    requires last + cnt < BUFSIZE ==> g.from + g.pos + cnt == |file|
    ensures last <= g.pos <= g.pos + cnt <= |g.text| == |g.seen| && c <= |file|
    ensures g.seen[g.pos..g.pos + cnt] == file[g.from + g.pos..g.from + g.pos + cnt]
    ensures g.seen[g.pos + cnt..] == g.text[g.pos + cnt..]
    ensures last + cnt < BUFSIZE ==> g.pos + cnt == |g.text|
    ensures last + cnt == BUFSIZE && torn ==>
      && last == 0 && g.seen == g.text == file[..c] && g.from == 0 && AtBlockEnd(file, c, g.pos + cnt)
      && g.seen[g.pos + cnt - 1] == file[g.pos + cnt - 1]
  {
    hide SeenAs;
    StaysInside(torn, junk, file, c, g, last, cnt);
    TailsAgree(g.text, g.seen, g.pos, g.pos + cnt);
  }

  lemma StaysInside(torn: bool, junk: bool, file: seq<byte>, c: nat, g: Progress, last: nat, cnt: nat)
    requires InPart(torn, junk, file, c, g, last) && Follows(g, last)
    requires last + cnt <= BUFSIZE && g.from + g.pos + cnt <= |file|
    requires last + cnt < BUFSIZE ==> g.from + g.pos + cnt == |file|
    ensures g.pos + cnt <= |g.text|
    ensures g.text[g.pos..g.pos + cnt] == file[g.from + g.pos..g.from + g.pos + cnt]
    ensures last + cnt < BUFSIZE ==> g.pos + cnt == |g.text|
    ensures last + cnt == BUFSIZE && torn ==>
      last == 0 && g.seen == g.text == file[..c] && g.from == 0 && AtBlockEnd(file, c, g.pos + cnt)
  {
    hide SeenAs;
    if torn {
      CutStep(file, c, g.pos);
      hide Cut;
    }
  }

  // The cut lies at the end of the next full block, or behind it if that ends in a
  // newline, or at the end of the file.
  lemma CutStep(file: seq<byte>, c: nat, pos: nat)
    requires pos <= c <= |file| && Cut(file[pos..]) == c - pos
    ensures if |file| - pos < BUFSIZE then c == |file| else AtBlockEnd(file, c, pos + BUFSIZE)
  {
    var rest := file[pos..];
    if |rest| >= BUFSIZE {
      assert rest[BUFSIZE - 1] == file[pos + BUFSIZE - 1];
      assert rest[BUFSIZE..] == file[pos + BUFSIZE..];
    }
  }

  lemma TailsAgree(t: seq<byte>, u: seq<byte>, a: nat, n: nat)
    requires |t| == |u| && a <= n <= |t| && u[a..] == t[a..]
    ensures u[n..] == t[n..] && u[a..n] == t[a..n] && (a < n ==> u[n - 1] == t[n - 1])
  {
    assert u[a..][n - a..] == u[n..] && t[a..][n - a..] == t[n..];
    assert u[a..][..n - a] == u[a..n] && t[a..][..n - a] == t[a..n];
    assert a < n ==> u[n - 1] == u[a..n][n - a - 1] && t[n - 1] == t[a..n][n - a - 1];
  }

  // After a refill a pass over the buffer can follow.
  lemma Refilled(data: array<byte>, m: seq<byte>, junk: bool, file: seq<byte>, c: nat, g: Progress, last: nat, cnt: nat)
    requires |m| == BUFSIZE + 1 && last + cnt <= BUFSIZE && g.from + g.pos + cnt <= |file|
    requires InPart(m[BUFSIZE] == NEWLINE, junk, file, c, g, last) && Follows(g, last)
    requires forall j {:trigger m[j]} :: 0 <= j < last ==> m[j] == g.seen[g.pos - last + j]
    requires last + cnt < BUFSIZE ==> g.from + g.pos + cnt == |file|
    requires data[..] == Splice(m, last, file[g.from + g.pos..g.from + g.pos + cnt])
    ensures Holds(data, g.seen, g.pos - last, 0, last + cnt) && data[BUFSIZE] == m[BUFSIZE]
    ensures last + cnt < BUFSIZE ==> g.pos + cnt == |g.seen|
    ensures last + cnt == BUFSIZE && m[BUFSIZE] == NEWLINE ==>
      last == 0 && (g.seen[g.pos + BUFSIZE - 1] == NEWLINE || g.pos + cnt == |g.seen|)
  {
    hide SeenAs, Splice, InPart, Cut, Follows, Holds;
    InsidePart(m[BUFSIZE] == NEWLINE, junk, file, c, g, last, cnt);
    FilledIn(data, m, g.seen, g.pos, last, g.seen[g.pos..g.pos + cnt]);
  }

  lemma FilledIn(data: array<byte>, was: seq<byte>, text: seq<byte>, pos: nat, last: nat, c: seq<byte>)
    requires |was| == BUFSIZE + 1 && last + |c| <= BUFSIZE && last <= pos && pos + |c| <= |text|
    requires data[..] == Splice(was, last, c) && c == text[pos..pos + |c|]
    requires forall j {:trigger was[j]} :: 0 <= j < last ==> was[j] == text[pos - last + j]
    ensures Holds(data, text, pos - last, 0, last + |c|) && data[BUFSIZE] == was[BUFSIZE]
  {
    forall j {:trigger data[j]} | 0 <= j < last + |c| ensures data[j] == text[pos - last + j] {
      assert data[j] == data[..][j];
      if j < last { assert data[..][j] == was[j]; } else { assert data[..][j] == c[j - last]; }
    }
    assert data[BUFSIZE] == data[..][BUFSIZE];
  }

  // What is veiled lies behind a newline, so the report up to there stays.
  lemma ReportStays(s: seq<byte>, fname: seq<byte>, u: seq<byte>, seen: seq<byte>, q: nat, out: seq<byte>,
                    base: seq<byte>)
    requires 0 < q <= |u| && q <= |seen| && u[..q] == seen[..q] && u[q - 1] == NEWLINE
    requires out + PieceReport(s, fname, u[q..]) == base + PieceReport(s, fname, u)
    ensures out + PieceReport(s, fname, seen[q..]) == base + PieceReport(s, fname, seen)
  {
    SplitAtNewline(s, fname, u, q);
    assert seen[q - 1] == seen[..q][q - 1] == u[..q][q - 1];
    SplitAtNewline(s, fname, seen, q);
    hide *;
    var head := PieceReport(s, fname, u[..q]);
    Appended(base, head, PieceReport(s, fname, u[q..]));
    Appended(base, head, PieceReport(s, fname, seen[q..]));
    SameFront(out, base + head, PieceReport(s, fname, u[q..]));
  }

  lemma SameFront(a: seq<byte>, b: seq<byte>, tail: seq<byte>)
    requires a + tail == b + tail
    ensures a == b
  {
    assert |a| == |b| && (a + tail)[..|a|] == a && (b + tail)[..|b|] == b;
  }

  lemma NothingVeiled(u: seq<byte>, seen: seq<byte>, q: nat)
    requires Veils(u, seen, q, q)
    ensures seen == u
  {
    assert u == u[..q] + u[q..] && seen == seen[..q] + seen[q..];
  }

  // A pass over the buffer goes on in the same part ..
  lemma Scanned(s: seq<byte>, fname: seq<byte>, g: Progress, seen: seq<byte>, pos: nat, last: nat, out: seq<byte>)
    returns (h: Progress)
    requires SeenAs(g.text, g.seen) && |g.seen| == |g.text| && last <= pos <= |g.text| && last < BUFSIZE
    requires g.seen[pos..] == g.text[pos..] && Veils(g.seen, seen, pos - last, pos)
    requires last > 0 ==> pos > last && g.seen[pos - last - 1] == NEWLINE
    requires out + PieceReport(s, fname, g.seen[pos - last..]) == g.base + PieceReport(s, fname, g.seen)
    ensures h == g.(seen := seen, pos := pos) && Follows(h, last) && (last == 0 ==> seen == g.seen)
    ensures |seen| == |g.seen|
    ensures out + PieceReport(s, fname, seen[pos - last..]) == g.base + PieceReport(s, fname, seen)
  {
    hide PieceReport, SeenAs;
    h := g.(seen := seen, pos := pos);
    VeiledFollows(g, seen, pos, last);
    if last == 0 {
      NothingVeiled(g.seen, seen, pos);
    } else {
      ReportStays(s, fname, g.seen, seen, pos - last, out, g.base);
    }
  }

  lemma VeiledFollows(g: Progress, seen: seq<byte>, pos: nat, last: nat)
    requires SeenAs(g.text, g.seen) && |g.seen| == |g.text| && last <= pos <= |g.text| && last < BUFSIZE
    requires g.seen[pos..] == g.text[pos..] && Veils(g.seen, seen, pos - last, pos)
    ensures Follows(g.(seen := seen, pos := pos), last)
  {
    SeenTwice(g.text, g.seen, seen);
    assert |seen| == |g.seen|;
    hide SeenAs;
  }

  // .. unless it has just passed the tear.
  lemma PastTear(s: seq<byte>, fname: seq<byte>, junk: bool, file: seq<byte>, c: nat, g: Progress,
                 out0: seq<byte>, out: seq<byte>) returns (h: Progress)
    requires g.from == 0 && g.pos == c == CutAt(junk, file) && g.seen == g.text == file[..c]
    requires Printed(true, s, fname, file, c, g, 0, out0, out)
    ensures h == Progress(c, 0, file[c..], file[c..], out) && Follows(h, 0)
    ensures InPart(false, junk, file, c, h, 0) && Printed(false, s, fname, file, c, h, 0, out0, out)
  {
    h := Progress(c, 0, file[c..], file[c..], out);
    SeenItself(file[c..]);
    NothingLeft(s, fname);
    hide PieceReport, SeenAs;
    assert g.seen[g.pos..] == [] && h.seen[0..] == h.seen && out + [] == out;
  }

  const OPEN_FAILED: seq<byte> := [102, 105, 108, 101, 32, 111, 112, 101, 110, 32, 102, 97, 105, 108, 101, 100, 10]

  // A name that leads to nothing or to a file, regular or the clock.
  ghost predicate CanGrep(k: Files, fname: seq<byte>)
    requires HasTables(k.img)
  {
    var i := Lookup(k.img, fname, 0);
    i.Some? ==> k.Openable(EntryOf(k.img, i.value)) && OpsFor(EntryOf(k.img, i.value).ftype) != Dir
  }

  lemma Beginning(s: seq<byte>, fname: seq<byte>, junk: bool, file: seq<byte>, out: seq<byte>) returns (g: Progress)
    ensures g.from == 0 && g.pos == 0
    ensures InPart(junk, junk, file, CutAt(junk, file), g, 0) && Follows(g, 0)
    ensures Printed(junk, s, fname, file, CutAt(junk, file), g, 0, out, out)
  {
    var c := CutAt(junk, file);
    var t := if junk then file[..c] else file[c..];
    g := Progress(0, 0, t, t, out);
    SeenItself(t);
    NothingLeft(s, fname);
    hide PieceReport, SeenAs, Cut;
    assert file[0..] == file && file[..0] == [] && t[0..] == t;
  }

  // At the end of the file the parts are what is printed for it.
  lemma Ending(torn: bool, junk: bool, s: seq<byte>, fname: seq<byte>, file: seq<byte>, c: nat, g: Progress,
               out0: seq<byte>, out: seq<byte>) returns (part: seq<byte>)
    requires InPart(torn, junk, file, c, g, 0) && Follows(g, 0) && g.from + g.pos == |file|
    requires Printed(torn, s, fname, file, c, g, 0, out0, out)
    ensures Stretch(junk, s, fname, file, part) && out == out0 + part
  {
    hide PieceReport, SeenAs, Cut;
    NothingLeft(s, fname);
    SeenItself(file[..c]);
    SeenItself(file[c..]);
    assert g.seen[g.pos..] == [] && out + [] == out;
    if torn {
      assert file[c..] == [];
      part := PieceReport(s, fname, g.seen);
      assert StretchOf(c, s, fname, file, g.seen, [], part);
    } else {
      part := PieceReport(s, fname, file[..c]) + PieceReport(s, fname, g.seen);
      Appended(out0, PieceReport(s, fname, file[..c]), PieceReport(s, fname, g.seen));
      assert StretchOf(c, s, fname, file, file[..c], g.seen, part);
    }
  }

  // What a pass over the buffer leaves of the progress, given the byte behind the
  // buffer before and after it.
  lemma AfterPass(was: byte, now: byte, s: seq<byte>, fname: seq<byte>, junk: bool, file: seq<byte>, c: nat,
                  g: Progress, last0: nat, cnt: nat, seen: seq<byte>, last: nat,
                  out0: seq<byte>, out1: seq<byte>, out: seq<byte>) returns (h: Progress)
    requires Follows(g, last0) && InPart(was == NEWLINE, junk, file, c, g, last0)
    requires Printed(was == NEWLINE, s, fname, file, c, g, last0, out0, out1)
    requires last0 + cnt <= BUFSIZE && g.from + g.pos + cnt <= |file| && g.pos + cnt <= |g.text|
    requires last0 + cnt < BUFSIZE ==> g.from + g.pos + cnt == |file|
    requires last <= last0 + cnt && last < BUFSIZE && Veils(g.seen, seen, g.pos + cnt - last, g.pos + cnt)
    requires last > 0 ==> g.pos + cnt > last && g.seen[g.pos + cnt - last - 1] == NEWLINE
    requires last0 + cnt == BUFSIZE && was == NEWLINE ==> last == 0
    requires out + PieceReport(s, fname, g.seen[g.pos + cnt - last..]) ==
      out1 + PieceReport(s, fname, g.seen[g.pos - last0..])
    requires now == if last0 + cnt == BUFSIZE && g.seen[g.pos + cnt - 1] != NEWLINE then NUL else was
    ensures Follows(h, last) && InPart(now == NEWLINE, junk, file, c, h, last)
    ensures Printed(now == NEWLINE, s, fname, file, c, h, last, out0, out)
    ensures h.from + h.pos == g.from + g.pos + cnt
    ensures last == 0 || (h.seen == seen && h.pos == g.pos + cnt)
  {
    hide *;
    InsidePart(was == NEWLINE, junk, file, c, g, last0, cnt);
    StillSeen(g, last0);
    h := Scanned(s, fname, g, seen, g.pos + cnt, last, out) by {
      BaseStays(was == NEWLINE, s, fname, file, c, g, last0, out0, out1);
    }
    BaseStands(was == NEWLINE, s, fname, file, c, g, last0, out0, out1, h, last, out);
    SamePart(was, now, junk, file, c, g, last0, cnt, h, last);
    if was == NEWLINE != now {
      h := PastTear(s, fname, junk, file, c, h, out0, out);
    }
  }

  // The part stays the same, unless the pass has taken the newline behind the buffer.
  lemma SamePart(was: byte, now: byte, junk: bool, file: seq<byte>, c: nat, g: Progress, last0: nat, cnt: nat,
                 h: Progress, last: nat)
    requires Follows(g, last0) && InPart(was == NEWLINE, junk, file, c, g, last0)
    requires last0 + cnt <= BUFSIZE && g.from + g.pos + cnt <= |file| && g.pos + cnt <= |g.text|
    requires last0 + cnt < BUFSIZE ==> g.from + g.pos + cnt == |file|
    requires last0 + cnt == BUFSIZE && was == NEWLINE ==> last == 0
    requires now == if last0 + cnt == BUFSIZE && g.seen[g.pos + cnt - 1] != NEWLINE then NUL else was
    requires h == g.(seen := h.seen, pos := g.pos + cnt) && (last == 0 ==> h.seen == g.seen)
    ensures was == NEWLINE != now ==>
      h.from == last == 0 && h.pos == c == CutAt(junk, file) && h.seen == h.text == file[..c]
    ensures was != NEWLINE ==> now != NEWLINE
    ensures was == now || was != NEWLINE ==> InPart(now == NEWLINE, junk, file, c, h, last)
  {
    hide SeenAs, Cut;
    InsidePart(was == NEWLINE, junk, file, c, g, last0, cnt);
    if was == NEWLINE && last0 + cnt < BUFSIZE {
      assert file[h.pos..] == [];
      CutOfEmpty();
    }
  }

  lemma BaseStays(torn: bool, s: seq<byte>, fname: seq<byte>, file: seq<byte>, c: nat, g: Progress, last: nat,
                  out0: seq<byte>, out: seq<byte>)
    requires c <= |file| && last <= g.pos <= |g.seen|
    requires Printed(torn, s, fname, file, c, g, last, out0, out)
    ensures out + PieceReport(s, fname, g.seen[g.pos - last..]) == g.base + PieceReport(s, fname, g.seen)
  {
    hide PieceReport;
  }

  lemma BaseStands(torn: bool, s: seq<byte>, fname: seq<byte>, file: seq<byte>, c: nat, g: Progress, last0: nat,
                   out0: seq<byte>, out1: seq<byte>, h: Progress, last: nat, out: seq<byte>)
    requires c <= |file| && last0 <= g.pos <= |g.seen| && last <= h.pos <= |h.seen|
    requires Printed(torn, s, fname, file, c, g, last0, out0, out1) && h.base == g.base
    requires out + PieceReport(s, fname, h.seen[h.pos - last..]) == g.base + PieceReport(s, fname, h.seen)
    ensures Printed(torn, s, fname, file, c, h, last, out0, out)
  {
    hide PieceReport;
  }

  lemma StillSeen(g: Progress, last: nat)
    requires Follows(g, last)
    ensures SeenAs(g.text, g.seen)
  {
  }

  lemma CutOfEmpty()
    ensures Cut([]) == 0
  {
  }

  // One turn of the loop: a refill and a pass over the buffer.
  method Round(k: Files, s: seq<byte>, fname: seq<byte>, fd: nat, data: array<byte>, last0: nat, ghost junk: bool,
               ghost file: seq<byte>, ghost c: nat, ghost g: Progress, ghost out0: seq<byte>)
    returns (cnt: int, last: nat, ghost h: Progress)
    requires k.Started() && fd in k.Table() && fd >= 2 && Without(s, NUL)
    requires At(k.img, k.Table()[fd], file, g.from + g.pos)
    requires Follows(g, last0) && Holds(data, g.seen, g.pos - last0, 0, last0)
    requires InPart(data[BUFSIZE] == NEWLINE, junk, file, c, g, last0)
    requires Printed(data[BUFSIZE] == NEWLINE, s, fname, file, c, g, last0, out0, k.stdout)
    modifies k`stdout, k.fd, data
    ensures k.Started() && Follows(h, last) && Holds(data, h.seen, h.pos - last, 0, last)
    ensures InPart(data[BUFSIZE] == NEWLINE, junk, file, c, h, last)
    ensures Printed(data[BUFSIZE] == NEWLINE, s, fname, file, c, h, last, out0, k.stdout)
    ensures 0 <= cnt && h.from + h.pos == g.from + g.pos + cnt <= |file|
    ensures k.Table() == old(k.Table())[fd := MovedTo(old(k.Table())[fd], h.from + h.pos)]
    ensures cnt == 0 ==> last == 0 && h.from + h.pos == |file|
  {
    hide PieceReport, Files.Valid, OpenIn, SeenAs, Splice, Cut, Veils, At, MovedTo, Printed, InPart;
    ghost var was, out1 := data[..], k.stdout;
    assert forall j {:trigger was[j]} :: 0 <= j < last0 ==> was[j] == g.seen[g.pos - last0 + j];
    cnt := Refill(k, fd, data, last0, file, g.from + g.pos);
    Refilled(data, was, junk, file, c, g, last0, cnt);
    hide Follows;
    ghost var seen;
    last, seen := ScanBuffer(k, s, fname, data, last0 + cnt, cnt, g.seen, g.pos - last0);
    h := AfterPass(was[BUFSIZE], data[BUFSIZE], s, fname, junk, file, c, g, last0, cnt, seen, last, out0, out1,
                   k.stdout);
  }

  lemma OpenedAt(img: Image, d: Dentry)
    requires OpsFor(d.ftype) != Dir
    ensures MovedTo(Opened(d), 0) == Opened(d) && At(img, Opened(d), TextOf(img, d), 0)
  {
    hide Content, ValidInode;
  }

  lemma MovedTwice(f: FileDesc, n: nat, m: nat)
    ensures MovedTo(MovedTo(f, n), m) == MovedTo(f, m)
  {
  }

  // The refill loop on a descriptor that has just been opened.  `data` is the
  // uninitialised buffer on the stack.
  method SearchOpened(k: Files, s: seq<byte>, fname: seq<byte>, fd: nat, data: array<byte>, ghost d: Dentry)
    returns (r: int, ghost part: seq<byte>)
    requires k.Started() && Without(s, NUL) && OpsFor(d.ftype) != Dir && data.Length == BUFSIZE + 1
    requires fd >= 2 && fd in k.Table() && k.Table()[fd] == Opened(d)
    modifies k`stdout, k.fd, data
    ensures k.Started() && fd in k.Table() && k.Table() - {fd} == old(k.Table()) - {fd}
    ensures r == 0 && k.stdout == old(k.stdout) + part
    ensures Stretch(old(data[BUFSIZE]) == NEWLINE, s, fname, TextOf(k.img, d), part)
  {
    hide PieceReport, Files.Valid, OpenIn, SeenAs, Splice, Cut, Veils, Stretch, CutAt, Printed, InPart;
    ghost var file, before, out0 := TextOf(k.img, d), k.Table(), k.stdout;
    ghost var junk := data[BUFSIZE] == NEWLINE;
    ghost var c := CutAt(junk, file);
    ghost var g := Beginning(s, fname, junk, file, out0);
    OpenedAt(k.img, d);
    hide TextOf, At, MovedTo, FileAt;
    var last: nat := 0;
    while true
      invariant k.Started() && Follows(g, last) && Holds(data, g.seen, g.pos - last, 0, last)
      invariant InPart(data[BUFSIZE] == NEWLINE, junk, file, c, g, last)
      invariant At(k.img, MovedTo(Opened(d), g.from + g.pos), file, g.from + g.pos)
      invariant k.Table() == before[fd := MovedTo(Opened(d), g.from + g.pos)]
      invariant Printed(data[BUFSIZE] == NEWLINE, s, fname, file, c, g, last, out0, k.stdout)
      decreases |file| - g.from - g.pos
    {
      // A read of an open descriptor never gives -1, so the source's failure
      // branch at this point is not taken.
      var cnt;
      ghost var at := g.from + g.pos;
      cnt, last, g := Round(k, s, fname, fd, data, last, junk, file, c, g, out0);
      AtMoved(k.img, MovedTo(Opened(d), at), file, at, at + cnt);
      MovedTwice(Opened(d), at, at + cnt);
      if cnt == 0 { break; }
    }
    part := Ending(data[BUFSIZE] == NEWLINE, junk, s, fname, file, c, g, out0, k.stdout);
    r := 0;
  }

  // What the whole call prints is a stretch for the file's text.
  method DoOneFile(k: Files, s: seq<byte>, fname: seq<byte>, data: array<byte>)
    returns (r: int, ghost part: seq<byte>)
    requires k.Started() && Without(s, NUL) && Without(fname, NUL) && data.Length == BUFSIZE + 1
    requires CanGrep(k, fname)
    modifies k`dt, k`stdout, k.fd, data
    ensures k.Started() && k.Table() == old(k.Table()) && k.stdout == old(k.stdout) + part
    ensures var i := Lookup(k.img, fname, 0);
      if i.None? || LowestFree(k.Table(), -1) then r == -1 && part == OPEN_FAILED
      else r == 0 && Stretch(old(data[BUFSIZE]) == NEWLINE, s, fname, TextOf(k.img, EntryOf(k.img, i.value)), part)
  {
    hide PieceReport, Stretch;
    var fd := k.Open(fname);
    if fd == -1 {
      Fdputs(k, OPEN_FAILED);
      return -1, OPEN_FAILED;
    }
    r, part := SearchOpened(k, s, fname, fd, data, EntryOf(k.img, Lookup(k.img, fname, 0).value));
    if r == 0 { r := k.Close(fd); }
    assert k.Table() == old(k.Table());
  }

  // ---- The program: every file of the directory ----

  const DOT: byte := 46
  const NO_ARGUMENT: seq<byte> := [99, 111, 117, 108, 100, 32, 110, 111, 116, 32, 114, 101, 97, 100, 32, 97, 114, 103,
    117, 109, 101, 110, 116, 10]
  const NO_DIRECTORY: seq<byte> := [100, 105, 114, 101, 99, 116, 111, 114, 121, 32, 111, 112, 101, 110, 32, 102, 97,
    105, 108, 101, 100, 10]

  predicate Hidden(name: seq<byte>) { name != [] && name[0] == DOT }

  // The report on entries i, i+1, .. of the directory: each listed name is
  // looked up again, as open does.
  ghost function ListReport(img: Image, s: seq<byte>, i: nat): seq<byte>
    requires HasTables(img) && i <= Entries(img)
    decreases Entries(img) - i
  {
    if i == Entries(img) then []
    else EntryReport(img, s, i) + ListReport(img, s, i + 1)
  }

  ghost function EntryReport(img: Image, s: seq<byte>, i: nat): seq<byte>
    requires HasTables(img) && i < Entries(img)
  {
    var name := NameOf(img, i);
    if Hidden(name) then []
    else PieceReport(s, name, TextOf(img, EntryOf(img, Lookup(img, name, 0).value)))
  }

  lemma ListStep(img: Image, s: seq<byte>, i: nat)
    requires HasTables(img) && i < Entries(img)
    ensures ListReport(img, s, i) == EntryReport(img, s, i) + ListReport(img, s, i + 1)
    ensures Hidden(NameOf(img, i)) ==> ListReport(img, s, i) == ListReport(img, s, i + 1)
  {
  }

  // What the user wants: for every visible file, its lines that contain s.
  ghost function LineReport(img: Image, s: seq<byte>, i: nat): seq<byte>
    requires HasTables(img) && i <= Entries(img)
    decreases Entries(img) - i
  {
    if i == Entries(img) then []
    else
      (if Hidden(NameOf(img, i)) then [] else Report(s, NameOf(img, i), Lines(TextOf(img, EntryOf(img, i)))))
      + LineReport(img, s, i + 1)
  }

  // With distinct names and lines that fit, the program's report is the report
  // of whole lines over every visible file, in directory order.
  lemma {:induction false} ListReportIsLineReport(img: Image, s: seq<byte>, i: nat)
    requires HasTables(img) && i <= Entries(img) && DistinctNames(img)
    requires forall j :: i <= j < Entries(img) && !Hidden(NameOf(img, j)) ==> LinesFit(TextOf(img, EntryOf(img, j)))
    ensures ListReport(img, s, i) == LineReport(img, s, i)
    decreases Entries(img) - i
  {
    if i < Entries(img) {
      ListedNameIsFound(img, i);
      if !Hidden(NameOf(img, i)) {
        FittingPiecesAreLines(s, NameOf(img, i), TextOf(img, EntryOf(img, i)));
      }
      ListReportIsLineReport(img, s, i + 1);
    }
  }

  // What stands on the output for entry i, when the byte behind the buffer was a
  // newline or not in the call for it.
  ghost predicate EntryPart(img: Image, s: seq<byte>, i: nat, junk: bool, part: seq<byte>)
    requires HasTables(img) && i < Entries(img)
  {
    var name := NameOf(img, i);
    if Hidden(name) then part == []
    else Stretch(junk, s, name, TextOf(img, EntryOf(img, Lookup(img, name, 0).value)), part)
  }

  ghost predicate EntryParts(img: Image, s: seq<byte>, junks: seq<bool>, parts: seq<seq<byte>>)
    requires HasTables(img) && |junks| == |parts| <= Entries(img)
  {
    forall i :: 0 <= i < |parts| ==> EntryPart(img, s, i, junks[i], parts[i])
  }

  // The output has one part for each entry, in directory order.
  ghost predicate Printout(img: Image, s: seq<byte>, out: seq<byte>, junks: seq<bool>, parts: seq<seq<byte>>)
    requires HasTables(img)
  {
    out == Joined(parts) && |junks| == |parts| == Entries(img) && EntryParts(img, s, junks, parts)
  }

  ghost function Joined(parts: seq<seq<byte>>): seq<byte> {
    if parts == [] then [] else parts[0] + Joined(parts[1..])
  }

  lemma {:induction false} JoinedOneMore(parts: seq<seq<byte>>, part: seq<byte>)
    ensures Joined(parts + [part]) == Joined(parts) + part
  {
    if parts == [] {
      assert ([part])[1..] == [] && [] + [part] == [part];
    } else {
      assert (parts + [part])[1..] == parts[1..] + [part];
      JoinedOneMore(parts[1..], part);
    }
  }

  // An entry's text that nothing veils and nothing tears.
  ghost predicate Plain(img: Image, i: nat, junk: bool)
    requires HasTables(img) && i < Entries(img)
  {
    var text := TextOf(img, EntryOf(img, Lookup(img, NameOf(img, i), 0).value));
    Hidden(NameOf(img, i)) || (Without(text, NUL) && (!junk || !TearsALine(text)))
  }

  // Over texts without NUL bytes and without torn lines the parts are the report of
  // all pieces, in directory order.
  lemma {:induction false} PlainPartsAreReport(img: Image, s: seq<byte>, junks: seq<bool>, parts: seq<seq<byte>>,
                                               i: nat)
    requires HasTables(img) && i <= |parts| == |junks| == Entries(img) && EntryParts(img, s, junks, parts)
    requires forall j :: i <= j < Entries(img) ==> Plain(img, j, junks[j])
    ensures Joined(parts[i..]) == ListReport(img, s, i)
    decreases Entries(img) - i
  {
    hide PieceReport, NameOf, EntryPart, Plain, EntryReport, Hidden;
    if i < Entries(img) {
      ListStep(img, s, i);
      assert EntryPart(img, s, i, junks[i], parts[i]) && Plain(img, i, junks[i]);
      PlainPartIsReport(img, s, i, junks[i], parts[i]);
      PlainPartsAreReport(img, s, junks, parts, i + 1);
      assert parts[i..][0] == parts[i] && parts[i..][1..] == parts[i + 1..];
    } else {
      assert parts[i..] == [];
    }
  }

  lemma PlainPartIsReport(img: Image, s: seq<byte>, i: nat, junk: bool, part: seq<byte>)
    requires HasTables(img) && i < Entries(img) && EntryPart(img, s, i, junk, part) && Plain(img, i, junk)
    ensures part == EntryReport(img, s, i)
  {
    hide PieceReport, Stretch, TearsALine, NameOf, TextOf, Lookup;
    var name := NameOf(img, i);
    if !Hidden(name) {
      StretchOfText(junk, s, name, TextOf(img, EntryOf(img, Lookup(img, name, 0).value)), part);
    }
  }

  // "." is the directory, and every visible name leads to a file, or to nothing.
  ghost predicate Searchables(k: Files)
    requires HasTables(k.img)
  {
    && (var i := Lookup(k.img, [DOT], 0); i.Some? ==> EntryOf(k.img, i.value).ftype == 1)
    && forall i :: 0 <= i < Entries(k.img) && !Hidden(NameOf(k.img, i)) ==> CanGrep(k, NameOf(k.img, i))
  }

  ghost predicate AllHidden(img: Image)
    requires HasTables(img)
  {
    forall i :: 0 <= i < Entries(img) ==> Hidden(NameOf(img, i))
  }

  // How the program ends, and what it leaves of the descriptors: the directory's
  // stays open.
  ghost predicate Outcome(img: Image, before: Table, after: Table, search: Option<seq<byte>>, r: int, out: seq<byte>)
    requires HasTables(img)
  {
    if search.None? then r == 3 && out == NO_ARGUMENT && after == before
    else if Lookup(img, [DOT], 0).None? || LowestFree(before, -1) then r == 2 && out == NO_DIRECTORY && after == before
    else exists d :: LowestFree(before, d) && Listed(img, before, after, d, r, out)
  }

  ghost predicate Listed(img: Image, before: Table, after: Table, d: int, r: int, out: seq<byte>)
    requires HasTables(img)
  {
    && d >= 2 && after - {d} == before
    && if LowestFree(before[d := FileDesc(Dir, 0, 0, true)], -1) && !AllHidden(img) then r == 3 && out == OPEN_FAILED
       else r == 0
  }

  // main; `search` is the argument, if there is one.  What is printed has one part for
  // every entry, in directory order, whatever the files hold; the byte behind the
  // buffer is uninitialised in each call of do_one_file, and junks says what it was.
  method Run(k: Files, search: Option<seq<byte>>)
    returns (r: int, ghost out: seq<byte>, ghost junks: seq<bool>, ghost parts: seq<seq<byte>>)
    requires k.Started() && Searchables(k) && (search.Some? ==> Without(search.value, NUL))
    modifies k, k.fd
    ensures k.Started() && k.stdout == old(k.stdout) + out
    ensures Outcome(k.img, old(k.Table()), k.Table(), search, r, out)
    ensures r == 0 ==> search.Some? && Printout(k.img, search.value, out, junks, parts)
  {
    hide Printout, AllHidden, Files.Valid, OpenIn;
    junks, parts := [], [];
    if search.None? {
      Fdputs(k, NO_ARGUMENT);
      return 3, NO_ARGUMENT, junks, parts;
    }
    ghost var before := k.Table();
    var fd := k.Open([DOT]);
    if fd == -1 {
      Fdputs(k, NO_DIRECTORY);
      return 2, NO_DIRECTORY, junks, parts;
    }
    var buf := new byte[NAME + 1];
    r, out, junks, parts := GrepEntries(k, search.value, fd, buf);
    assert k.Table() - {fd} == before;
    assert Listed(k.img, before, k.Table(), fd, r, out);
  }

  // The directory loop, on the opened directory.
  method GrepEntries(k: Files, s: seq<byte>, fd: nat, buf: array<byte>)
    returns (r: int, ghost out: seq<byte>, ghost junks: seq<bool>, ghost parts: seq<seq<byte>>)
    requires k.Started() && Searchables(k) && Without(s, NUL)
    requires 2 <= fd && fd in k.Table() && k.Table()[fd] == FileDesc(Dir, 0, 0, true)
    requires buf.Length == NAME + 1
    modifies k`dt, k`stdout, k.fd, buf
    ensures k.Started() && k.Table() - {fd} == old(k.Table()) - {fd} && k.stdout == old(k.stdout) + out
    ensures if LowestFree(old(k.Table()), -1) && !AllHidden(k.img) then r == 3 && out == OPEN_FAILED
      else r == 0 && Printout(k.img, s, out, junks, parts)
  {
    hide PieceReport, NameOf, Hidden, CStr, Word, OpenIn, EntryPart, CanGrep, LowestFree, Joined;
    assert HasTables(k.img);
    ghost var full, rest := LowestFree(k.Table(), -1), k.Table() - {fd};
    junks, parts := [], [];
    NothingJoined();
    ghost var i := 0;
    while true
      invariant k.Started() && 0 <= i <= Entries(k.img) && |junks| == |parts| == i
      invariant fd in k.Table() && k.Table()[fd] == FileDesc(Dir, 0, i, true) && k.Table() - {fd} == rest
      invariant full <==> LowestFree(k.Table(), -1)
      invariant k.stdout == old(k.stdout) + Joined(parts) && EntryParts(k.img, s, junks, parts)
      invariant full ==> k.stdout == old(k.stdout) && forall j :: 0 <= j < i ==> Hidden(NameOf(k.img, j))
      decreases Entries(k.img) - i
    {
      var cnt := NextName(k, fd, buf, i);
      if cnt == 0 { break; }
      i := i + 1;
      assert CanGrep(k, NameOf(k.img, i - 1)) || Hidden(NameOf(k.img, i - 1));
      ghost var out, junk, part := k.stdout, false, [];
      if buf[0] == DOT {
        JoinedOneMore(parts, part);
        HiddenPart(k.img, s, i - 1);
        junks, parts := junks + [junk], parts + [part];
        continue;
      }
      var failed;
      failed, junk, part := GrepEntry(k, s, buf, i - 1);
      if failed != 0 { return 3, OPEN_FAILED, junks, parts; }
      JoinedOneMore(parts, part);
      Appended(old(k.stdout), Joined(parts), part);
      junks, parts := junks + [junk], parts + [part];
    }
    r, out := 0, Joined(parts);
  }

  lemma NothingJoined()
    ensures Joined([]) == []
  {
  }

  lemma HiddenPart(img: Image, s: seq<byte>, i: nat)
    requires HasTables(img) && i < Entries(img) && Hidden(NameOf(img, i))
    ensures EntryPart(img, s, i, false, [])
  {
  }

  // Searches the file whose padded name the listing left in buf.  Each call finds
  // other bytes in its uninitialised buffer.
  method GrepEntry(k: Files, s: seq<byte>, buf: array<byte>, ghost i: nat)
    returns (r: int, ghost junk: bool, ghost part: seq<byte>)
    requires k.Started() && i < Entries(k.img) && Without(s, NUL)
    requires !Hidden(NameOf(k.img, i)) && CanGrep(k, NameOf(k.img, i))
    requires buf.Length == NAME + 1 && buf[..NAME] == Padded(NameOf(k.img, i))
    modifies k`dt, k`stdout, k.fd, buf
    ensures k.Started() && k.Table() == old(k.Table()) && k.stdout == old(k.stdout) + part
    ensures if LowestFree(k.Table(), -1) then r == -1 && part == OPEN_FAILED
      else r == 0 && EntryPart(k.img, s, i, junk, part)
  {
    hide PieceReport, Stretch;
    buf[NAME] := NUL;
    assert buf[..] == Padded(NameOf(k.img, i)) + [NUL];
    PaddedReadsBack(NameOf(k.img, i));
    ListedNameIsFound(k.img, i);
    var data := new byte[BUFSIZE + 1];
    junk := data[BUFSIZE] == NEWLINE;
    r, part := DoOneFile(k, s, CStr(buf[..]), data);
  }

  // The next directory entry, padded, in buf[..32]; 0 at the end.
  method NextName(k: Files, fd: nat, buf: array<byte>, ghost i: nat) returns (cnt: int)
    requires k.Started() && buf.Length == NAME + 1 && i <= Entries(k.img)
    requires 2 <= fd && fd in k.Table() && k.Table()[fd] == FileDesc(Dir, 0, i, true)
    modifies k.fd, buf
    ensures k.Started() && LowestFree(k.Table(), -1) == LowestFree(old(k.Table()), -1)
    ensures if i == Entries(k.img) then cnt == 0 && k.Table() == old(k.Table())
      else && cnt == NAME && k.Table() == old(k.Table())[fd := FileDesc(Dir, 0, i + 1, true)]
           && buf[..NAME] == Padded(NameOf(k.img, i)) && (buf[0] == DOT <==> Hidden(NameOf(k.img, i)))
  {
    cnt := k.Read(fd, buf, 0, NAME);
    FreeByKeys(k.Table(), old(k.Table()), -1);
  }
}
