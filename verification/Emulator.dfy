// The user-level emulator of syscalls/ece391emulate.c: execute cuts a command
// line into an argument vector, getargs joins the vector again.
module Emulator {
  import opened CString
  import opened FileSystem

  const DOT: byte := 46
  const SLASH: byte := 47
  const COMMAND_MAX := 1023

  type Text = s: seq<byte> | Without(s, NUL) witness []

  // ---- Words ----

  predicate Ends(b: byte) { b == NUL || b == SPACE || b == NEWLINE }

  // The first position that ends a word.
  function WordLength(t: seq<byte>): (k: nat)
    ensures k <= |t| && (k < |t| ==> Ends(t[k]))
    ensures forall j {:trigger t[j]} :: 0 <= j < k ==> !Ends(t[j])
  {
    if t == [] || Ends(t[0]) then 0 else 1 + WordLength(t[1..])
  }

  // The words of what follows the program's name.  A newline where a word
  // could start ends the line; behind a word it only separates.
  ghost function Words(t: seq<byte>): seq<seq<byte>>
    decreases |t|
  {
    if t == [] || t[0] == NUL || t[0] == NEWLINE then []
    else if t[0] == SPACE then Words(t[1..])
    else
      var k := WordLength(t);
      [t[..k]] + if k < |t| && t[k] != NUL then Words(t[k + 1..]) else []
  }

  ghost function Arguments(t: seq<byte>): seq<seq<byte>> {
    var k := WordLength(t);
    if k < |t| then Words(t[k + 1..]) else []
  }

  ghost predicate IsWord(w: seq<byte>) {
    w != [] && forall j {:trigger w[j]} :: 0 <= j < |w| ==> !Ends(w[j])
  }

  ghost predicate AreWords(ws: seq<seq<byte>>) { forall j {:trigger ws[j]} :: 0 <= j < |ws| ==> IsWord(ws[j]) }

  // Joined by single spaces.
  ghost function Join(ws: seq<seq<byte>>): seq<byte> {
    if ws == [] then [] else if |ws| == 1 then ws[0] else ws[0] + [SPACE] + Join(ws[1..])
  }

  lemma FirstOfWords(u: seq<byte>)
    requires u != [] && !Ends(u[0])
    ensures var k := WordLength(u);
      0 < k && Words(u) == [u[..k]] + Words(if k < |u| && u[k] != NUL then u[k + 1..] else [])
  {
  }

  lemma NothingLeft(u: seq<byte>)
    requires u == [] || u[0] == NUL || u[0] == NEWLINE
    ensures Words(u) == []
  {
  }

  lemma FirstIsWord(u: seq<byte>)
    requires u != [] && !Ends(u[0])
    ensures IsWord(u[..WordLength(u)])
  {
    FirstOfWords(u);
    var w := u[..WordLength(u)];
    hide WordLength;
    assert forall j {:trigger w[j]} :: 0 <= j < |w| ==> w[j] == u[j];
  }

  lemma {:induction false} WordsAreWords(t: seq<byte>)
    ensures AreWords(Words(t))
    ensures 2 * |Words(t)| <= |t| + 1
    decreases |t|
  {
    if t == [] || t[0] == NUL || t[0] == NEWLINE {
      NothingLeft(t);
    } else if t[0] == SPACE {
      WordsAreWords(t[1..]);
    } else {
      FirstOfWords(t);
      FirstIsWord(t);
      var k := WordLength(t);
      var u := if k < |t| && t[k] != NUL then t[k + 1..] else [];
      NothingLeft([]);
      hide Words, WordLength, IsWord;
      if k < |t| { WordsAreWords(u); }
    }
  }

  lemma WordAtFront(w: seq<byte>, t: seq<byte>)
    requires IsWord(w) && (t == [] || Ends(t[0]))
    ensures WordLength(w + t) == |w|
    ensures Words(w + t) == [w] + if t != [] && t[0] != NUL then Words(t[1..]) else []
  {
    var s, k := w + t, WordLength(w + t);
    assert forall j {:trigger s[j]} :: 0 <= j < |w| ==> s[j] == w[j];
    assert t != [] ==> s[|w|] == t[0];
    assert k == |w|;
    assert s[..k] == w;
    assert t != [] ==> s[k + 1..] == t[1..];
  }

  lemma JoinOfMore(w: seq<byte>, ws: seq<seq<byte>>)
    ensures Join([w] + ws) == if ws == [] then w else w + [SPACE] + Join(ws)
  {
    assert ([w] + ws)[1..] == ws;
  }

  lemma Separated(w: seq<byte>, rest: seq<byte>)
    requires IsWord(w)
    ensures Words(w + [SPACE] + rest) == [w] + Words(rest)
  {
    hide Words, WordLength, IsWord;
    var t := [SPACE] + rest;
    assert t[1..] == rest;
    assert w + [SPACE] + rest == w + t;
    WordAtFront(w, t);
  }

  ghost function Blanks(n: nat): (s: seq<byte>)
    ensures |s| == n && forall i {:trigger s[i]} :: 0 <= i < n ==> s[i] == SPACE
  {
    seq(n, _ => SPACE)
  }

  // The words with gaps[k] + 1 spaces before word k, one less before the first, and
  // `behind` of them at the end.
  ghost function Spaced(ws: seq<seq<byte>>, gaps: seq<nat>, behind: nat): seq<byte>
    requires |gaps| == |ws|
  {
    if ws == [] then Blanks(behind)
    else Blanks(gaps[0]) + (ws[0] + if |ws| == 1 then Blanks(behind) else [SPACE] + Spaced(ws[1..], gaps[1..], behind))
  }

  lemma {:induction false} BlanksAreSkipped(n: nat, t: seq<byte>)
    ensures Words(Blanks(n) + t) == Words(t)
  {
    if n == 0 {
      assert Blanks(0) + t == t;
    } else {
      assert (Blanks(n) + t)[1..] == Blanks(n - 1) + t;
      BlanksAreSkipped(n - 1, t);
    }
  }

  // However many spaces stand around and between them, the words are the words.
  lemma {:induction false} SpacesOnlySeparate(ws: seq<seq<byte>>, gaps: seq<nat>, behind: nat)
    requires AreWords(ws) && |gaps| == |ws|
    ensures Words(Spaced(ws, gaps, behind)) == ws
  {
    if ws == [] {
      OnlyBlanks(behind);
    } else {
      hide Words, IsWord, WordLength;
      var w, r := ws[0], ws[1..];
      assert ws == [w] + r && AreWords(r) && IsWord(w);
      var rest := if |ws| == 1 then Blanks(behind) else [SPACE] + Spaced(r, gaps[1..], behind);
      BlanksAreSkipped(gaps[0], w + rest);
      if |ws| == 1 {
        LastWord(w, behind);
      } else {
        SpacesOnlySeparate(r, gaps[1..], behind);
        Separated(w, Spaced(r, gaps[1..], behind));
        assert w + [SPACE] + Spaced(r, gaps[1..], behind) == w + rest;
      }
    }
  }

  lemma OnlyBlanks(n: nat)
    ensures Words(Blanks(n)) == []
  {
    BlanksAreSkipped(n, []);
    assert Blanks(n) + [] == Blanks(n);
  }

  lemma LastWord(w: seq<byte>, behind: nat)
    requires IsWord(w)
    ensures Words(w + Blanks(behind)) == [w]
  {
    var t := Blanks(behind);
    WordAtFront(w, t);
    if behind > 0 {
      assert t[1..] == Blanks(behind - 1);
      OnlyBlanks(behind - 1);
    }
  }

  // Tokenizing what was joined gives the words back.
  lemma {:induction false} JoinedWordsComeBack(ws: seq<seq<byte>>)
    requires AreWords(ws)
    ensures Words(Join(ws)) == ws
  {
    if ws == [] {
      NothingLeft([]);
    } else {
      var w, r := ws[0], ws[1..];
      assert ws == [w] + r && AreWords(r) && IsWord(w);
      JoinOfMore(w, r);
      hide Join, Words, WordLength;
      if r == [] {
        WordAtFront(w, []);
        assert w + [] == w;
      } else {
        JoinedWordsComeBack(r);
        Separated(w, Join(r));
      }
    }
  }

  lemma ArgumentsSurviveJoining(t: seq<byte>)
    ensures Words(Join(Arguments(t))) == Arguments(t)
  {
    var k := WordLength(t);
    if k < |t| { WordsAreWords(t[k + 1..]); }
    JoinedWordsComeBack(Arguments(t));
  }

  // ---- When joining gives the very text back ----

  // No space in front, at the end or beside another, and no newline.
  ghost predicate Tidy(t: seq<byte>) {
    (forall j {:trigger t[j]} :: 0 <= j < |t| ==> t[j] != NEWLINE && t[j] != NUL) &&
    (t != [] ==> t[0] != SPACE) &&
    forall j {:trigger t[j]} :: 0 <= j < |t| && t[j] == SPACE ==> j + 1 < |t| && t[j + 1] != SPACE
  }

  lemma {:induction false} JoinIsTidy(ws: seq<seq<byte>>)
    requires AreWords(ws)
    ensures Tidy(Join(ws)) && (ws != [] ==> Join(ws) != [])
  {
    if |ws| == 1 {
      assert IsWord(ws[0]);
    } else if |ws| > 1 {
      var w, r := ws[0], Join(ws[1..]);
      JoinIsTidy(ws[1..]);
      var s := Join(ws);
      assert IsWord(w) && s == w + [SPACE] + r;
      assert forall j {:trigger s[j]} :: 0 <= j < |w| ==> s[j] == w[j];
      assert forall j {:trigger s[j]} :: |w| < j < |s| ==> s[j] == r[j - |w| - 1];
      assert r[0] == s[|w| + 1];
    }
  }

  lemma TidyBehind(t: seq<byte>, k: nat)
    requires Tidy(t) && t != [] && k == WordLength(t)
    ensures !Ends(t[0])
    ensures k < |t| ==> t[k] == SPACE && Tidy(t[k + 1..]) && t[k + 1..] != []
  {
    hide WordLength;
    if k < |t| {
      var u := t[k + 1..];
      assert t[k] == SPACE;
      assert forall j {:trigger u[j]} :: 0 <= j < |u| ==> u[j] == t[k + 1 + j];
      assert u[0] == t[k + 1];
    }
  }

  lemma {:induction false} TidyIsKept(t: seq<byte>)
    requires Tidy(t)
    ensures Join(Words(t)) == t && (t != [] ==> Words(t) != [])
    decreases |t|
  {
    hide Tidy, WordLength, Words, Join;
    NothingLeft([]);
    if t == [] {
      NoWordsJoined();
    } else {
      var k := WordLength(t);
      TidyBehind(t, k);
      FirstOfWords(t);
      if k < |t| {
        TidyIsKept(t[k + 1..]);
        JoinOfMore(t[..k], Words(t[k + 1..]));
        Recombined(t, k);
      } else {
        JoinOfMore(t[..k], []);
        assert t[..k] == t && [t[..k]] + [] == [t[..k]];
      }
    }
  }

  lemma Recombined(t: seq<byte>, k: nat)
    requires k < |t|
    ensures t[..k] + [t[k]] + t[k + 1..] == t
  {
  }

  lemma NoWordsJoined()
    ensures Join([]) == []
  {
  }

  lemma JoinGivesTextBackIff(t: seq<byte>)
    ensures Join(Words(t)) == t <==> Tidy(t)
  {
    WordsAreWords(t);
    JoinIsTidy(Words(t));
    if Tidy(t) { TidyIsKept(t); }
  }

  // ---- Cutting a command line in place ----

  // The string w sits at p, its terminator not behind limit.
  ghost predicate IsAt(m: seq<byte>, p: nat, w: seq<byte>, limit: nat) {
    p + |w| <= limit < |m| && m[p..p + |w|] == w && m[p + |w|] == NUL
  }

  ghost predicate AllAt(m: seq<byte>, ps: seq<nat>, ws: seq<seq<byte>>, limit: nat) {
    |ps| == |ws| && forall j {:trigger ps[j]} :: 0 <= j < |ps| ==> IsAt(m, ps[j], ws[j], limit)
  }

  lemma OneMore(m: seq<byte>, ps: seq<nat>, ws: seq<seq<byte>>, limit: nat, p: nat, w: seq<byte>)
    requires AllAt(m, ps, ws, limit) && IsAt(m, p, w, limit)
    ensures AllAt(m, ps + [p], ws + [w], limit)
  {
  }

  lemma CutKeeps(m: seq<byte>, ps: seq<nat>, ws: seq<seq<byte>>, limit: nat, q: nat, limit': nat)
    requires AllAt(m, ps, ws, limit) && limit <= q && q <= limit' < |m|
    ensures AllAt(m[q := NUL], ps, ws, limit')
  {
    forall j {:trigger ps[j]} | 0 <= j < |ps| ensures IsAt(m[q := NUL], ps[j], ws[j], limit') {
      assert IsAt(m, ps[j], ws[j], limit);
    }
  }

  function Strings(m: seq<byte>, ps: seq<nat>): seq<seq<byte>>
    requires forall j {:trigger ps[j]} :: 0 <= j < |ps| ==> ps[j] <= |m|
  {
    seq(|ps|, j requires 0 <= j < |ps| => CStr(m[ps[j]..]))
  }

  lemma StringsRead(m: seq<byte>, ps: seq<nat>, ws: seq<seq<byte>>, limit: nat)
    requires AllAt(m, ps, ws, limit) && forall j {:trigger ws[j]} :: 0 <= j < |ws| ==> Without(ws[j], NUL)
    ensures forall j {:trigger ps[j]} :: 0 <= j < |ps| ==> ps[j] <= |m|
    ensures Strings(m, ps) == ws
  {
    forall j {:trigger ps[j]} | 0 <= j < |ps| ensures ps[j] <= |m| && CStr(m[ps[j]..]) == ws[j] {
      assert IsAt(m, ps[j], ws[j], limit);
      StringAtFront(m[ps[j]..], ws[j]);
    }
  }

  // ece391_strcpy of a given string.
  method CopyString(s: Text, buf: array<byte>, at: nat)
    requires at + |s| < buf.Length
    modifies buf
    ensures buf[..] == Splice(old(buf[..]), at, s + [NUL])
  {
    ghost var before := buf[..];
    var i := 0;
    while i < |s|
      invariant 0 <= i <= |s|
      invariant forall k {:trigger buf[k]} :: at <= k < at + i ==> buf[k] == s[k - at]
      invariant forall k {:trigger buf[k]} :: 0 <= k < at || at + i <= k < buf.Length ==> buf[k] == before[k]
    {
      buf[at + i] := s[i];
      i := i + 1;
    }
    buf[at + |s|] := NUL;
    IsSplice(before, at, s + [NUL], buf[..]);
  }

  // The text that is still to be read.
  ghost predicate Pending(m: seq<byte>, scan: nat, t: seq<byte>) {
    scan + |t| < |m| && m[scan..scan + |t|] == t && m[scan + |t|] == NUL && Without(t, NUL)
  }

  lemma PendingAt(m: seq<byte>, scan: nat, t: seq<byte>, k: nat)
    requires Pending(m, scan, t) && k <= |t|
    ensures m[scan + k] == if k < |t| then t[k] else NUL
    ensures Pending(m, scan + k, t[k..])
    ensures m[scan..scan + k] == t[..k]
  {
    assert m[scan..scan + |t|][..k] == t[..k];
    assert m[scan..scan + |t|][k..] == t[k..];
  }

  method SkipWord(buf: array<byte>, from: nat, ghost t: seq<byte>) returns (scan: nat)
    requires Pending(buf[..], from, t)
    ensures scan == from + WordLength(t)
  {
    scan := from;
    PendingAt(buf[..], from, t, 0);
    while buf[scan] != NUL && buf[scan] != SPACE && buf[scan] != NEWLINE
      invariant from <= scan <= from + WordLength(t) && buf[scan] == (if scan - from < |t| then t[scan - from] else NUL)
      decreases from + |t| - scan
    {
      PendingAt(buf[..], from, t, scan - from + 1);
      scan := scan + 1;
    }
  }

  method SkipSpaces(buf: array<byte>, from: nat, ghost t: seq<byte>) returns (scan: nat, ghost u: seq<byte>)
    requires Pending(buf[..], from, t)
    ensures Pending(buf[..], scan, u) && scan + |u| == from + |t| && from <= scan
    ensures Words(u) == Words(t) && (u != [] ==> u[0] != SPACE)
  {
    scan, u := from, t;
    PendingAt(buf[..], scan, u, 0);
    while buf[scan] == SPACE
      invariant Pending(buf[..], scan, u) && scan + |u| == from + |t| && from <= scan
      invariant Words(u) == Words(t) && buf[scan] == if u != [] then u[0] else NUL
      decreases |u|
    {
      PendingAt(buf[..], scan, u, 1);
      scan, u := scan + 1, u[1..];
      PendingAt(buf[..], scan, u, 0);
    }
  }

  lemma CutOff(m: seq<byte>, scan: nat, u: seq<byte>, k: nat)
    requires Pending(m, scan, u) && k <= |u|
    ensures scan + k < |m| && IsAt(m[scan + k := NUL], scan, u[..k], scan + k)
    ensures if k == |u| then m[scan + k] == NUL && Pending(m, scan + k, [])
      else m[scan + k] == u[k] && u[k] != NUL && Pending(m[scan + k := NUL], scan + k + 1, u[k + 1..])
  {
    PendingAt(m, scan, u, k);
    var end := scan + k;
    assert m[end := NUL][scan..end] == m[scan..end];
    if k < |u| {
      PendingAt(m, scan, u, k + 1);
      var r := u[k + 1..];
      assert m[end := NUL][end + 1..end + 1 + |r|] == m[end + 1..end + 1 + |r|];
    }
  }

  lemma AtLater(m: seq<byte>, p: nat, w: seq<byte>, limit: nat, limit': nat)
    requires IsAt(m, p, w, limit) && limit <= limit' < |m|
    ensures IsAt(m, p, w, limit')
  {
  }

  lemma WordAdded(m: seq<byte>, ps: seq<nat>, ws: seq<seq<byte>>, limit: nat, p: nat, w: seq<byte>, limit': nat)
    requires AllAt(m, ps, ws, limit) && limit <= p && p + |w| <= limit' < |m|
    requires IsAt(m[p + |w| := NUL], p, w, p + |w|)
    ensures AllAt(m[p + |w| := NUL], ps + [p], ws + [w], limit')
  {
    var m' := m[p + |w| := NUL];
    CutKeeps(m, ps, ws, limit, p + |w|, limit');
    AtLater(m', p, w, p + |w|, limit');
    OneMore(m', ps, ws, limit', p, w);
  }

  // One word and the byte behind it.
  method CutWord(buf: array<byte>, start: nat, ghost u: seq<byte>) returns (scan: nat, ghost rest: seq<byte>)
    requires Pending(buf[..], start, u) && u != [] && !Ends(u[0])
    modifies buf
    ensures Pending(buf[..], scan, rest) && scan + |rest| == start + |u| && |rest| < |u|
    ensures start + WordLength(u) < buf.Length && start + WordLength(u) <= scan < buf.Length
    ensures buf[..] == old(buf[..])[start + WordLength(u) := NUL]
    ensures forall k {:trigger buf[k]} :: 0 <= k < start ==> buf[k] == old(buf[k])
    ensures IsAt(buf[..], start, u[..WordLength(u)], start + WordLength(u))
    ensures Words(u) == [u[..WordLength(u)]] + Words(rest)
  {
    FirstOfWords(u);
    CutOff(buf[..], start, u, WordLength(u));
    ghost var m := buf[..];
    scan := SkipWord(buf, start, u);
    hide Words, WordLength, Pending, IsAt;
    if buf[scan] != NUL {
      buf[scan] := NUL;
      assert buf[..] == m[scan := NUL];
      scan, rest := scan + 1, u[WordLength(u) + 1..];
    } else {
      assert buf[..] == m[scan := NUL];
      rest := [];
    }
  }

  lemma Nothing(ws: seq<seq<byte>>)
    ensures ws + [] == ws
  {
  }

  lemma Moved(ws: seq<seq<byte>>, w: seq<byte>, rest: seq<seq<byte>>)
    ensures ws + ([w] + rest) == ws + [w] + rest
  {
  }

  method AddArgument(buf: array<byte>, start: nat, ghost u: seq<byte>, args: seq<nat>, ghost ws: seq<seq<byte>>,
      ghost limit: nat, ghost all: seq<seq<byte>>)
    returns (scan: nat, ghost rest: seq<byte>, args': seq<nat>, ghost ws': seq<seq<byte>>)
    requires Pending(buf[..], start, u) && u != [] && !Ends(u[0]) && limit <= start
    requires AllAt(buf[..], args, ws, limit) && ws + Words(u) == all
    modifies buf
    ensures Pending(buf[..], scan, rest) && scan + |rest| == start + |u| && |rest| < |u| && start < scan
    ensures AllAt(buf[..], args', ws', scan) && ws' + Words(rest) == all
    ensures forall k {:trigger buf[k]} :: 0 <= k < start ==> buf[k] == old(buf[k])
  {
    hide *;
    FirstOfWords(u);
    ghost var m, w := buf[..], u[..WordLength(u)];
    scan, rest := CutWord(buf, start, u);
    WordAdded(m, args, ws, limit, start, w, scan);
    Moved(ws, w, Words(rest));
    args', ws' := args + [start], ws + [w];
  }

  // The loop behind the program's name: every word of t gets its terminator.
  method CutArguments(buf: array<byte>, from: nat, ghost t: seq<byte>) returns (args: seq<nat>)
    requires Pending(buf[..], from, t)
    modifies buf
    ensures AllAt(buf[..], args, Words(t), from + |t|)
    ensures forall k {:trigger buf[k]} :: 0 <= k < from ==> buf[k] == old(buf[k])
  {
    args := [];
    var scan: nat := from;
    ghost var u, ws: seq<seq<byte>> := t, [];
    PendingAt(buf[..], from, t, 0);
    assert AllAt(buf[..], args, ws, scan);
    hide IsAt, AllAt, Pending, WordLength, Words;
    while true
      invariant Pending(buf[..], scan, u) && scan + |u| == from + |t| && from <= scan
      invariant AllAt(buf[..], args, ws, scan) && ws + Words(u) == Words(t)
      invariant forall k {:trigger buf[k]} :: 0 <= k < from ==> buf[k] == old(buf[k])
      decreases |u|
    {
      ghost var limit := scan;
      scan, u := SkipSpaces(buf, scan, u);
      PendingAt(buf[..], scan, u, 0);
      if buf[scan] == NUL || buf[scan] == NEWLINE {
        CutKeeps(buf[..], args, ws, limit, scan, from + |t|);
        NothingLeft(u);
        Nothing(ws);
        ghost var m := buf[..];
        buf[scan] := NUL;
        assert buf[..] == m[scan := NUL];
        break;
      }
      scan, u, args, ws := AddArgument(buf, scan, u, args, ws, limit, Words(t));
    }
  }

  lemma CommandPending(m: seq<byte>, before: seq<byte>, command: Text)
    requires |before| == COMMAND_MAX + 3 && |command| <= COMMAND_MAX && before[..2] == [DOT, SLASH]
    requires m == Splice(before, 2, command + [NUL])
    ensures Pending(m, 0, [DOT, SLASH] + command) && Pending(m, 2, command)
  {
    var t := [DOT, SLASH] + command;
    assert m[..2] == before[..2];
    assert m[2..3 + |command|] == command + [NUL];
    assert m[2 + |command|] == NUL && m[2..2 + |command|] == command;
    assert m[0..|t|] == m[..2] + m[2..|t|];
  }

  lemma NameIsCut(m: seq<byte>, command: Text, k: nat)
    requires Pending(m, 0, [DOT, SLASH] + command) && k <= |command|
    ensures k + 2 < |m| && AllAt(m[k + 2 := NUL], [0], [[DOT, SLASH] + command[..k]], k + 2)
  {
    var t := [DOT, SLASH] + command;
    CutOff(m, 0, t, k + 2);
    assert t[..k + 2] == [DOT, SLASH] + command[..k];
    assert IsAt(m[k + 2 := NUL], 0, t[..k + 2], k + 2);
  }

  lemma Combined(m: seq<byte>, m': seq<byte>, ps: seq<nat>, ws: seq<seq<byte>>, p: nat, w: seq<byte>, limit: nat,
                 limit': nat)
    requires AllAt(m, [p], [w], limit) && AllAt(m', ps, ws, limit') && limit <= limit' < |m'|
    requires |m| == |m'| && m[..limit + 1] == m'[..limit + 1]
    ensures AllAt(m', [p] + ps, [w] + ws, limit')
  {
    assert IsAt(m, [p][0], [w][0], limit);
    var front := m[..limit + 1];
    assert |front| == limit + 1 && front == m'[..limit + 1];
    assert front[p..p + |w|] == m[p..p + |w|];
    assert front[p..p + |w|] == m'[p..p + |w|];
    assert front[p + |w|] == m[p + |w|] && front[p + |w|] == m'[p + |w|];
    assert IsAt(m', p, w, limit');
  }

  // The vector that execute hands on, or nothing for a command too long.
  ghost function Vector(command: Text): seq<seq<byte>> {
    [[DOT, SLASH] + command[..WordLength(command)]] + Arguments(command)
  }

  // A name, a space and words spread by any number of spaces: the vector is the name
  // behind "./" and the words.
  lemma VectorOfCommand(name: seq<byte>, ws: seq<seq<byte>>, gaps: seq<nat>, behind: nat)
    requires IsWord(name) && AreWords(ws) && |gaps| == |ws| && Without(name + [SPACE] + Spaced(ws, gaps, behind), NUL)
    ensures Vector(name + [SPACE] + Spaced(ws, gaps, behind)) == [[46, 47] + name] + ws
  {
    var text := Spaced(ws, gaps, behind);
    var command := name + [SPACE] + text;
    SpacesOnlySeparate(ws, gaps, behind);
    hide Words, Spaced;
    assert command == name + ([SPACE] + text);
    WordAtFront(name, [SPACE] + text);
    hide WordLength, IsWord;
    assert command[..|name|] == name && command[|name| + 1..] == text;
  }

  lemma VectorIsClean(command: Text)
    requires |command| <= COMMAND_MAX
    ensures forall j {:trigger Vector(command)[j]} :: 0 <= j < |Vector(command)| ==> Without(Vector(command)[j], NUL)
    ensures |Vector(command)| <= 513
  {
    var k := WordLength(command);
    if k < |command| {
      WordsAreWords(command[k + 1..]);
      var ws := Words(command[k + 1..]);
      assert forall j {:trigger ws[j]} :: 0 <= j < |ws| ==> IsWord(ws[j]);
    }
  }

  // The name and the arguments, each with its terminator.
  method Cut(buf: array<byte>, ghost command: Text) returns (args: seq<nat>)
    requires Pending(buf[..], 0, [DOT, SLASH] + command) && Pending(buf[..], 2, command)
    modifies buf
    ensures AllAt(buf[..], args, Vector(command), 2 + |command|)
  {
    var scan := SkipWord(buf, 2, command);
    ghost var k, m := WordLength(command), buf[..];
    NameIsCut(m, command, k);
    PendingAt(m, 2, command, k);
    CutOff(m, 2, command, k);
    ghost var rest: seq<byte> := if k < |command| then command[k + 1..] else [];
    hide WordLength, AllAt, IsAt, Pending;
    args := [0];
    if buf[scan] != NUL {
      buf[scan] := NUL;
      assert buf[..] == m[k + 2 := NUL];
      hide *;
      var more := CutArguments(buf, scan + 1, rest);
      assert buf[..k + 3] == m[k + 2 := NUL][..k + 3];
      Combined(m[k + 2 := NUL], buf[..], more, Words(rest), 0, [DOT, SLASH] + command[..k], k + 2, 2 + |command|);
      args := [0] + more;
    } else {
      assert m[k + 2 := NUL] == m && buf[..] == m;
    }
  }

  method Execute(command: Text) returns (argv: Option<seq<seq<byte>>>)
    ensures argv == if |command| <= COMMAND_MAX then Some(Vector(command)) else None
    ensures argv.Some? ==> |argv.value| <= 513
  {
    if COMMAND_MAX < |command| { return None; }
    var buf := new byte[COMMAND_MAX + 3];
    buf[0], buf[1] := DOT, SLASH;
    ghost var before := buf[..];
    CopyString(command, buf, 2);
    CommandPending(buf[..], before, command);
    VectorIsClean(command);
    hide Vector, AllAt, Pending, Splice;
    var args := Cut(buf, command);
    StringsRead(buf[..], args, Vector(command), 2 + |command|);
    argv := Some(Strings(buf[..], args));
  }

  // ---- Joining ----

  // Some prefix of the words, joined, takes exactly n bytes: its terminator
  // is then written behind the room.
  ghost predicate FillsExactly(ws: seq<seq<byte>>, n: int) {
    ws != [] && (|ws[0]| == n || (|ws[0]| < n && FillsExactly(ws[1..], n - |ws[0]| - 1)))
  }

  lemma {:induction false} RoomMeansNotFilled(ws: seq<seq<byte>>, n: int)
    requires |Join(ws)| < n
    ensures !FillsExactly(ws, n)
  {
    if ws != [] && |ws| > 1 {
      RoomMeansNotFilled(ws[1..], n - |ws[0]| - 1);
    }
  }

  ghost function Behind(argv: seq<Text>): seq<seq<byte>> { if argv == [] then [] else argv[1..] }

  // What is left to join, and whether it fills n bytes, from the j-th word on.
  ghost function JoinFrom(ws: seq<seq<byte>>, j: nat): seq<byte> { if j <= |ws| then Join(ws[j..]) else [] }

  ghost predicate FillsFrom(ws: seq<seq<byte>>, j: nat, n: int) { j <= |ws| && FillsExactly(ws[j..], n) }

  // The words before j make up text; the rest is still to come, and whether it
  // fills the left bytes of room is what it was in the beginning.
  ghost predicate Joining(ws: seq<seq<byte>>, j: nat, left: int, text: seq<byte>, fills: bool) {
    text + JoinFrom(ws, j) == Join(ws) && FillsFrom(ws, j, left) == fills
  }

  lemma FirstWordToJoin(ws: seq<seq<byte>>, n: int)
    ensures Joining(ws, 0, n, [], FillsExactly(ws, n)) && (ws == [] ==> Join(ws) == [] && !FillsExactly(ws, n))
  {
    assert ws[0..] == ws;
  }

  lemma NextWordFills(ws: seq<seq<byte>>, j: nat, n: int)
    requires j < |ws|
    ensures FillsFrom(ws, j, n) <==>
      |ws[j]| == n || (j + 1 < |ws| && |ws[j]| < n && FillsFrom(ws, j + 1, n - |ws[j]| - 1))
  {
    var v := ws[j..];
    assert v[0] == ws[j] && v[1..] == ws[j + 1..];
    if j + 1 == |ws| {
      assert ws[j + 1..] == [];
      assert !FillsExactly([], n - |ws[j]| - 1);
    }
  }

  lemma NextWordJoins(ws: seq<seq<byte>>, j: nat, text: seq<byte>)
    requires j < |ws|
    ensures text + JoinFrom(ws, j) ==
      if j + 1 < |ws| then text + ws[j] + [SPACE] + JoinFrom(ws, j + 1) else text + ws[j]
  {
    var v := ws[j..];
    assert v[0] == ws[j] && v[1..] == ws[j + 1..];
    if j + 1 < |ws| { assert text + (ws[j] + [SPACE] + Join(v[1..])) == text + ws[j] + [SPACE] + Join(v[1..]); }
  }

  lemma NextWordToJoin(ws: seq<seq<byte>>, j: nat, left: int, text: seq<byte>, fills: bool)
    requires Joining(ws, j, left, text, fills) && j < |ws|
    ensures |Join(ws)| >= |text| + |ws[j]| && (|ws[j]| == left ==> fills) && (|ws[j]| > left ==> !fills)
    ensures j + 1 == |ws| ==> Join(ws) == text + ws[j] && (fills ==> |ws[j]| == left)
    ensures j + 1 < |ws| ==> |Join(ws)| > |text| + |ws[j]|
    ensures j + 1 < |ws| && |ws[j]| < left ==> Joining(ws, j + 1, left - |ws[j]| - 1, text + ws[j] + [SPACE], fills)
  {
    hide Join, JoinFrom, FillsFrom;
    NextWordFills(ws, j, left);
    NextWordJoins(ws, j, text);
  }

  lemma Appended(m: seq<byte>, p: nat, w: seq<byte>, m': seq<byte>)
    requires p + |w| < |m| && m' == Splice(m, p, w + [NUL])
    ensures |m'| == |m| && m'[..p + |w|] == m[..p] + w && m'[p + |w|] == NUL
    ensures forall k {:trigger m'[k]} :: p + |w| < k < |m'| ==> m'[k] == m[k]
  {
  }

  ghost predicate Starts(m: seq<byte>, text: seq<byte>) { |text| <= |m| && m[..|text|] == text }

  method Append(w: Text, buf: array<byte>, p: nat, ghost text: seq<byte>)
    requires p + |w| < buf.Length && Starts(buf[..], text) && p == |text|
    modifies buf
    ensures Starts(buf[..], text + w) && buf[p + |w|] == NUL
    ensures forall k {:trigger buf[k]} :: p + |w| < k < buf.Length ==> buf[k] == old(buf[k])
  {
    ghost var m := buf[..];
    CopyString(w, buf, p);
    Appended(m, p, w, buf[..]);
  }

  method PutSpace(buf: array<byte>, p: nat, ghost text: seq<byte>)
    requires p < buf.Length && Starts(buf[..], text) && p == |text|
    modifies buf
    ensures Starts(buf[..], text + [SPACE])
    ensures forall k {:trigger buf[k]} :: p < k < buf.Length ==> buf[k] == old(buf[k])
  {
    buf[p] := SPACE;
    assert buf[..p] == text;
  }

  lemma Terminated(m: seq<byte>, text: seq<byte>)
    requires Starts(m, text) && |text| < |m|
    ensures Starts(m[|text| := NUL], text)
  {
  }

  lemma WrittenAtFront(before: seq<byte>, text: seq<byte>, after: seq<byte>)
    requires |text| < |before| == |after| && Starts(after, text) && after[|text|] == NUL
    requires forall k {:trigger after[k]} :: |text| < k < |after| ==> after[k] == before[k]
    ensures after == Splice(before, 0, text + [NUL])
  {
    assert forall k {:trigger after[k]} :: 0 <= k < |text| ==> after[k] == after[..|text|][k];
    IsSplice(before, 0, text + [NUL], after);
  }

  // Nothing behind p has been written, and not the cell behind the room either.
  ghost predicate Intact(m: seq<byte>, before: seq<byte>, p: nat, cell: int) {
    |m| == |before| && forall k {:trigger m[k]} :: 0 <= k < |m| && (k > p || k == cell) ==> m[k] == before[k]
  }

  // One word, and the space behind it unless it is the last.
  method JoinWord(w: Text, last: bool, buf: array<byte>, p: nat, left: int, ghost text: seq<byte>,
                  ghost before: seq<byte>)
    returns (ok: bool, p': nat)
    requires Starts(buf[..], text) && p == |text| && |w| <= left && p + |w| < buf.Length
    requires Intact(buf[..], before, p, p + left)
    modifies buf
    ensures Starts(buf[..], text + w + if ok && !last then [SPACE] else []) && (ok <==> last || |w| < left)
    ensures p' == p + |w| + if ok && !last then 1 else 0
    ensures if |w| == left then p' == p + left && Intact(buf[..], before, p', -1) && buf[p'] == NUL
      else Intact(buf[..], before, p', p + left)
  {
    Append(w, buf, p, text);
    assert text + w + [] == text + w;
    ok, p' := true, p + |w|;
    if last { return; }
    if left - |w| < 1 { return false, p'; }
    PutSpace(buf, p', text + w);
    p' := p' + 1;
  }

  // Before the j-th word: text is written and p is behind it.
  ghost predicate Under(ws: seq<seq<byte>>, j: nat, p: nat, n: int, text: seq<byte>, fills: bool, m: seq<byte>,
                        before: seq<byte>) {
    && p == |text| <= |m| && (p == 0 || p <= n) && Starts(m, text)
    && Joining(ws, j, n - p, text, fills) && Intact(m, before, p, n)
  }

  // How the loop ends: all is the words joined.
  ghost predicate Ended(all: seq<byte>, ok: bool, p: nat, n: int, fills: bool, m: seq<byte>, before: seq<byte>) {
    && p <= |m| && (p == 0 || p <= n)
    && (if ok then p == |all| && Starts(m, all) else |all| >= n)
    && if fills then p == n < |m| && Intact(m, before, p, -1) && m[p] == NUL else Intact(m, before, p, n)
  }

  // One round of the loop.
  method JoinNext(w: Text, last: bool, buf: array<byte>, p: nat, n: int, ghost ws: seq<seq<byte>>, ghost j: nat,
                  ghost text: seq<byte>, ghost fills: bool, ghost before: seq<byte>)
    returns (more: bool, ok: bool, p': nat, ghost text': seq<byte>)
    requires j < |ws| && ws[j] == w && (last <==> j + 1 == |ws|)
    requires Under(ws, j, p, n, text, fills, buf[..], before) && (n < buf.Length || (n == buf.Length && !fills))
    modifies buf
    ensures more ==> !last && Under(ws, j + 1, p', n, text', fills, buf[..], before)
    ensures !more ==> Ended(Join(ws), ok, p', n, fills, buf[..], before)
  {
    hide Join, Joining, Intact, Starts;
    NextWordToJoin(ws, j, n - p, text, fills);
    text' := text;
    if |w| > n - p { return false, false, p, text; }
    ok, p' := JoinWord(w, last, buf, p, n - p, text, before);
    assert text + w + [] == text + w;
    more := ok && !last;
    text' := text + w + [SPACE];
  }

  // The loop: it gives up as soon as the room is used up before a word or a
  // space, and otherwise leaves p behind the last word.
  method JoinInto(argv: seq<Text>, buf: array<byte>, nbytes: int) returns (ok: bool, p: nat)
    requires nbytes < buf.Length || (nbytes == buf.Length && !FillsExactly(Behind(argv), nbytes))
    modifies buf
    ensures Ended(Join(Behind(argv)), ok, p, nbytes, FillsExactly(Behind(argv), nbytes), buf[..], old(buf[..]))
  {
    ghost var before, ws, text: seq<byte>, fills := buf[..], Behind(argv), [], FillsExactly(Behind(argv), nbytes);
    var argc, idx := |argv|, 1;
    FirstWordToJoin(ws, nbytes);
    assert |ws| == (if argc == 0 then 0 else argc - 1);
    assert forall j {:trigger ws[j]} :: 0 <= j < |ws| ==> ws[j] == argv[j + 1];
    ok, p := true, 0;
    if argc <= 1 { return; }
    assert Under(ws, 0, 0, nbytes, text, fills, buf[..], before);
    hide *;
    while idx < argc
      invariant 1 <= idx < argc && Under(ws, idx - 1, p, nbytes, text, fills, buf[..], before)
      decreases argc - idx
    {
      var more;
      more, ok, p, text := JoinNext(argv[idx], idx + 1 >= argc, buf, p, nbytes, ws, idx - 1, text, fills, before);
      if !more { return; }
      idx := idx + 1;
    }
  }

  lemma IntactMeans(m: seq<byte>, before: seq<byte>, p: nat, cell: int)
    requires Intact(m, before, p, -1) || Intact(m, before, p, cell)
    ensures |m| == |before| && forall k {:trigger m[k]} :: p < k < |m| ==> m[k] == before[k]
    ensures 0 <= cell < |m| && Intact(m, before, p, cell) ==> m[cell] == before[cell]
  {
  }

  method Getargs(argv: seq<Text>, buf: array<byte>, nbytes: int) returns (r: int)
    requires nbytes < buf.Length || (nbytes == buf.Length && !FillsExactly(Behind(argv), nbytes))
    modifies buf
    ensures r == if |Join(Behind(argv))| < nbytes then 0 else -1
    ensures r == 0 ==> buf[..] == Splice(old(buf[..]), 0, Join(Behind(argv)) + [NUL])
    ensures forall k {:trigger buf[k]} :: 0 <= nbytes < k < buf.Length ==> buf[k] == old(buf[k])
    ensures 0 <= nbytes < buf.Length ==>
      if FillsExactly(Behind(argv), nbytes) then r == -1 && buf[nbytes] == NUL else buf[nbytes] == old(buf[nbytes])
  {
    ghost var before := buf[..];
    hide *;
    var ok, p := JoinInto(argv, buf, nbytes);
    ghost var m := buf[..];
    IntactMeans(m, before, p, nbytes);
    if !ok || nbytes - p < 1 { return -1; }
    buf[p] := NUL;
    r := 0;
    Terminated(m, Join(Behind(argv)));
    assert buf[..] == m[p := NUL];
    WrittenAtFront(before, Join(Behind(argv)), buf[..]);
  }

  // Two bytes of room for the two bytes of "ab": refused, and the third byte is
  // overwritten all the same.
  method FullRoomIsOverrun(buf: array<byte>) returns (r: int)
    requires buf.Length > 2
    modifies buf
    ensures r == -1 && buf[2] == NUL
  {
    var argv: seq<Text> := [[DOT, SLASH], [97, 98]];
    assert Behind(argv) == [[97, 98]];
    r := Getargs(argv, buf, 2);
  }
}
