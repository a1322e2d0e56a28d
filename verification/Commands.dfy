// Command lines: parse_arg and getargs of student-distrib/syscall.c.
module Commands {
  import opened CString
  import opened GrepSpec

  const ARG_SIZE := 32

  ghost function NextSpace(t: seq<byte>): nat { IndexOf(t, SPACE) }

  ghost predicate Clear(m: seq<byte>, i: nat)
    requires i <= |m|
  {
    forall j {:trigger m[j]} :: 0 <= j < i ==> m[j] != SPACE
  }

  lemma NextSpaceMeans(t: seq<byte>)
    ensures NextSpace(t) <= |t| && Clear(t, NextSpace(t))
    ensures NextSpace(t) < |t| ==> t[NextSpace(t)] == SPACE
  {
    hide IndexOf;
  }

  // ---- What parse_arg should find: the text after the last space ----

  ghost function AfterLast(t: seq<byte>): seq<byte> {
    var k := NextSpace(t);
    if k < |t| then AfterLast(t[k + 1..]) else t
  }

  // Every piece between spaces has at most 31 bytes.
  ghost predicate ShortWords(t: seq<byte>) {
    var k := NextSpace(t);
    k < ARG_SIZE && (k < |t| ==> ShortWords(t[k + 1..]))
  }

  // ---- What parse_arg does with memory ----
  //
  // Once in arg, the index starts over after every space and the scan goes on
  // past the terminator until 32 bytes without a space have been copied.

  ghost function LastWindow(m: seq<byte>): (w: seq<byte>)
    ensures |w| <= |m|
  {
    var k := NextSpace(m);
    if k < |m| && k < ARG_SIZE then LastWindow(m[k + 1..]) else m
  }

  // The scan stays in memory and in arg.
  ghost predicate StopsInTime(m: seq<byte>) {
    var k := NextSpace(m);
    if k < |m| && k < ARG_SIZE then StopsInTime(m[k + 1..]) else |m| >= ARG_SIZE && m[ARG_SIZE - 1] == NUL
  }

  function WordEnd(m: seq<byte>): (k: nat)
    ensures k <= |m| && forall j {:trigger m[j]} :: 0 <= j < k ==> m[j] != NUL && m[j] != SPACE
    ensures k < |m| ==> m[k] == NUL || m[k] == SPACE
  {
    if m == [] || m[0] == NUL || m[0] == SPACE then 0 else 1 + WordEnd(m[1..])
  }

  ghost predicate Parsable(m: seq<byte>) {
    var k := WordEnd(m);
    k < |m| && k < ARG_SIZE && (m[k] == SPACE ==> StopsInTime(m[k + 1..]))
  }

  lemma NextSpaceIs(s: seq<byte>, k: nat)
    requires k <= |s| && (k < |s| ==> s[k] == SPACE) && Clear(s, k)
    ensures NextSpace(s) == k
  {
    NextSpaceMeans(s);
    hide NextSpace;
  }

  lemma WindowStep(m: seq<byte>)
    requires NextSpace(m) < |m| && NextSpace(m) < ARG_SIZE
    ensures LastWindow(m) == LastWindow(m[NextSpace(m) + 1..])
  {
    hide NextSpace, StopsInTime;
  }

  lemma StopStep(m: seq<byte>)
    requires NextSpace(m) < |m| && NextSpace(m) < ARG_SIZE
    ensures StopsInTime(m) == StopsInTime(m[NextSpace(m) + 1..])
  {
    hide NextSpace, LastWindow;
  }

  lemma WindowAt(m: seq<byte>, i: nat)
    requires i < |m| && i < ARG_SIZE && m[i] == SPACE && Clear(m, i)
    ensures LastWindow(m) == LastWindow(m[i + 1..]) && StopsInTime(m) == StopsInTime(m[i + 1..])
  {
    hide *;
    NextSpaceIs(m, i);
    WindowStep(m);
    StopStep(m);
  }

  lemma ClearFurther(m: seq<byte>, i: nat)
    requires i <= |m| && Clear(m, i)
    ensures i + WordEnd(m[i..]) <= |m| && Clear(m, i + WordEnd(m[i..]))
    ensures forall j {:trigger m[j]} :: i <= j < i + WordEnd(m[i..]) ==> m[j] != NUL
  {
    hide WordEnd, NextSpace;
    var t, w := m[i..], WordEnd(m[i..]);
    assert forall j {:trigger m[j]} :: i <= j < i + w ==> m[j] == t[j - i];
  }

  lemma StopsWithNul(m: seq<byte>, i: nat)
    requires StopsInTime(m) && i <= |m| && Clear(m, i)
    ensures i >= ARG_SIZE || i == |m| ==> |m| >= ARG_SIZE && m[ARG_SIZE - 1] == NUL
  {
    NextSpaceMeans(m);
    hide NextSpace;
  }

  // A window of which i bytes have been copied without a space: the next word
  // ends inside it.
  lemma WordStopsInWindow(m: seq<byte>, i: nat)
    requires i <= |m| && i < ARG_SIZE && Clear(m, i) && StopsInTime(m)
    ensures i + WordEnd(m[i..]) < |m| && i + WordEnd(m[i..]) < ARG_SIZE
    ensures Clear(m, i + WordEnd(m[i..]))
  {
    hide WordEnd, StopsInTime, Clear;
    ClearFurther(m, i);
    StopsWithNul(m, i + WordEnd(m[i..]));
  }

  lemma WindowIsLast(m: seq<byte>)
    requires StopsInTime(m) && (|m| >= ARG_SIZE ==> Clear(m, ARG_SIZE))
    ensures |m| >= ARG_SIZE && LastWindow(m) == m
  {
    NextSpaceMeans(m);
    hide NextSpace;
  }

  // The inner loop: one word, up to a NUL or a space.
  method CopyWord(buf: array<byte>, from: nat, curr: array<byte>, at: nat) returns (c: nat, i: nat)
    requires buf != curr && from <= buf.Length
    requires from + WordEnd(buf[from..]) < buf.Length && at + WordEnd(buf[from..]) < curr.Length
    modifies curr
    ensures c == from + WordEnd(buf[from..]) && i == at + (c - from)
    ensures buf[c] == NUL || buf[c] == SPACE
    ensures curr[..] == Splice(old(curr[..]), at, buf[from..c] + [NUL])
    ensures forall k {:trigger curr[k]} :: at <= k < i ==> curr[k] == buf[from + (k - at)]
    ensures curr[i] == NUL && forall k {:trigger curr[k]} :: 0 <= k < at ==> curr[k] == old(curr[k])
  {
    ghost var before, w := curr[..], WordEnd(buf[from..]);
    ghost var word := buf[from..][..w];
    assert buf[from + w] == buf[from..][w];
    assert forall k {:trigger buf[k]} :: from <= k < from + w ==> buf[k] == word[k - from];
    c, i := from, at;
    while buf[c] != NUL && buf[c] != SPACE
      invariant from <= c <= from + w && i == at + (c - from)
      invariant forall k {:trigger curr[k]} :: at <= k < i ==> curr[k] == word[k - at]
      invariant forall k {:trigger curr[k]} :: 0 <= k < at || i <= k < curr.Length ==> curr[k] == before[k]
      decreases from + w - c
    {
      curr[i] := buf[c];
      i, c := i + 1, c + 1;
    }
    curr[i] := NUL;
    assert buf[from..c] == word;
    IsSplice(before, at, word + [NUL], curr[..]);
  }

  // One word more of the window that starts at s.
  method NextWord(buf: array<byte>, from: nat, arg: array<byte>, i: nat, ghost s: nat) returns (c: nat, i': nat)
    requires buf != arg && from == s + i <= buf.Length && i < ARG_SIZE == arg.Length
    requires Clear(buf[s..], i) && StopsInTime(buf[s..])
    requires forall j {:trigger arg[j]} :: 0 <= j < i ==> arg[j] == buf[s + j]
    modifies arg
    ensures i <= i' < ARG_SIZE && c == s + i' < buf.Length && Clear(buf[s..], i')
    ensures forall j {:trigger arg[j]} :: 0 <= j < i' ==> arg[j] == buf[s + j]
    ensures arg[i'] == NUL && (buf[c] == SPACE || buf[c] == NUL)
  {
    WordStopsInWindow(buf[s..], i);
    hide StopsInTime, Clear, Splice, WordEnd;
    assert buf[from..] == buf[s..][i..];
    c, i' := CopyWord(buf, from, arg, i);
  }

  // Everything behind the first space.
  method ParseRest(buf: array<byte>, from: nat, arg: array<byte>)
    requires buf != arg && from <= buf.Length && arg.Length == ARG_SIZE && StopsInTime(buf[from..])
    modifies arg
    ensures |LastWindow(buf[from..])| >= ARG_SIZE && arg[..] == LastWindow(buf[from..])[..ARG_SIZE]
  {
    hide StopsInTime, LastWindow;
    ghost var rest, s: nat := buf[from..], from;
    var i: int, c: nat := 0, from;
    while i < ARG_SIZE
      invariant 0 <= i <= ARG_SIZE && c == s + i <= buf.Length
      invariant Clear(buf[s..], i) && StopsInTime(buf[s..]) && LastWindow(buf[s..]) == LastWindow(rest)
      invariant forall j {:trigger arg[j]} :: 0 <= j < i ==> arg[j] == buf[s + j]
      decreases buf.Length - c
    {
      c, i := NextWord(buf, c, arg, i, s);
      if buf[c] == SPACE {
        WindowAt(buf[s..], i);
        assert buf[s..][i + 1..] == buf[c + 1..];
        s := c + 1;
        i := -1;
      }
      i, c := i + 1, c + 1;
    }
    WindowIsLast(buf[s..]);
  }

  // What the two strings hold afterwards, as a function of memory.
  ghost function NameText(m: seq<byte>): seq<byte> { m[..WordEnd(m)] }

  ghost function ArgText(m: seq<byte>): seq<byte>
    requires Parsable(m)
  {
    if m[WordEnd(m)] == SPACE then CStr(LastWindow(m[WordEnd(m) + 1..])) else []
  }

  lemma {:induction false} WindowHasNul(m: seq<byte>)
    requires StopsInTime(m)
    ensures var w := LastWindow(m); |w| >= ARG_SIZE && w[ARG_SIZE - 1] == NUL
    ensures CStr(LastWindow(m)[..ARG_SIZE]) == CStr(LastWindow(m))
  {
    var k := NextSpace(m);
    if k < |m| && k < ARG_SIZE {
      WindowHasNul(m[k + 1..]);
    } else {
      var c := CStr(m);
      assert m[..ARG_SIZE][..|c|] == c && m[..ARG_SIZE][|c|] == m[|c|];
      StringAtFront(m[..ARG_SIZE], c);
    }
  }

  // The first word to filename; to arg the window after the last space that
  // the scan meets, or nothing when the command is one word.
  method ParseArg(buf: array<byte>, filename: array<byte>, arg: array<byte>)
    requires buf != filename && buf != arg && filename != arg
    requires filename.Length == ARG_SIZE && arg.Length == ARG_SIZE && Parsable(buf[..])
    modifies filename, arg
    ensures filename[..] == Splice(old(filename[..]), 0, buf[..WordEnd(buf[..])] + [NUL])
    ensures CStr(filename[..]) == NameText(buf[..])
    ensures var k := WordEnd(buf[..]);
      if buf[k] == SPACE then
        |LastWindow(buf[k + 1..])| >= ARG_SIZE && arg[..] == LastWindow(buf[k + 1..])[..ARG_SIZE]
      else arg[..] == old(arg[..])[0 := NUL]
    ensures CStr(arg[..]) == ArgText(buf[..]) && |CStr(arg[..])| < ARG_SIZE
  {
    hide LastWindow, StopsInTime, CStr;
    assert buf[0..] == buf[..];
    var c, i := CopyWord(buf, 0, filename, 0);
    hide WordEnd;
    assert buf[0..c] == buf[..c];
    StringAtFront(filename[..], buf[..c]);
    if buf[c] == SPACE {
      ParseRest(buf, c + 1, arg);
      assert buf[..][c + 1..] == buf[c + 1..];
      WindowHasNul(buf[c + 1..]);
      EndsInTime(arg[..]);
    } else {
      arg[0] := NUL;
      StringAtFront(arg[..], []);
    }
  }

  lemma EndsInTime(s: seq<byte>)
    requires s != [] && s[|s| - 1] == NUL
    ensures |CStr(s)| < |s| && s[|CStr(s)|] == NUL
  {
  }

  // ---- When parse_arg is right ----

  // Memory that starts with the command t, its terminator, and then whatever
  // the buffer held before.
  ghost function Holding(t: seq<byte>, rest: seq<byte>): seq<byte> { t + [NUL] + rest }

  lemma Behind(t: seq<byte>, rest: seq<byte>, i: nat)
    requires i < |t|
    ensures Holding(t, rest)[i + 1..] == Holding(t[i + 1..], rest)
    ensures Holding(t, rest)[i] == t[i] && Holding(t, rest)[..i] == t[..i]
  {
  }

  ghost predicate NoStaleSpace(t: seq<byte>, rest: seq<byte>) {
    forall k {:trigger rest[k]} :: 0 <= k < |rest| && |AfterLast(t)| + 1 + k < ARG_SIZE ==> rest[k] != SPACE
  }

  lemma LastWordWindow(t: seq<byte>, rest: seq<byte>)
    requires NextSpace(t) == |t| < ARG_SIZE
    ensures LastWindow(Holding(t, rest)) == Holding(t, rest) <==> NoStaleSpace(t, rest)
    ensures !NoStaleSpace(t, rest) ==> |LastWindow(Holding(t, rest))| < |rest|
  {
    assert AfterLast(t) == t;
    var m := Holding(t, rest);
    var k := NextSpace(m);
    assert forall j {:trigger m[j]} :: 0 <= j < |t| ==> m[j] == t[j];
    hide NextSpace, AfterLast;
    assert m[|t|] == NUL && forall j {:trigger rest[j]} :: 0 <= j < |rest| ==> rest[j] == m[|t| + 1 + j];
    hide Holding;
    assert k < |m| ==> k > |t| && rest[k - |t| - 1] == SPACE;
    assert NoStaleSpace(t, rest) <==> k == |m| || k >= ARG_SIZE;
  }

  lemma ClearPrefix(t: seq<byte>, m: seq<byte>, i: nat)
    requires i <= |t| && i <= |m| && Clear(t, i) && m[..i] == t[..i]
    ensures Clear(m, i)
  {
    assert forall j {:trigger m[j]} :: 0 <= j < i ==> m[j] == m[..i][j];
    assert forall j {:trigger t[j]} :: 0 <= j < i ==> t[j] == t[..i][j];
  }

  // The scan ends in the command's own last window exactly when the bytes
  // after the terminator, as far as that window reaches, hold no space.
  lemma {:induction false} WindowOfCommand(t: seq<byte>, rest: seq<byte>)
    requires ShortWords(t)
    ensures LastWindow(Holding(t, rest)) == Holding(AfterLast(t), rest) <==> NoStaleSpace(t, rest)
    ensures !NoStaleSpace(t, rest) ==> |LastWindow(Holding(t, rest))| < |rest|
  {
    var i := NextSpace(t);
    NextSpaceMeans(t);
    hide NextSpace, LastWindow, StopsInTime;
    if i < |t| {
      Behind(t, rest, i);
      ClearPrefix(t, Holding(t, rest), i);
      WindowAt(Holding(t, rest), i);
      WindowOfCommand(t[i + 1..], rest);
    } else {
      LastWordWindow(t, rest);
    }
  }

  lemma NameOfCommand(t: seq<byte>, rest: seq<byte>)
    requires Without(t, NUL)
    ensures WordEnd(Holding(t, rest)) == NextSpace(t)
  {
    var m, i := Holding(t, rest), NextSpace(t);
    assert forall j {:trigger m[j]} :: 0 <= j < |t| ==> m[j] == t[j];
    assert m[i] == SPACE || m[i] == NUL;
    hide WordEnd, NextSpace, Holding;
    assert WordEnd(m) <= i;
  }

  lemma {:induction false} NoNulAfterLast(t: seq<byte>)
    requires Without(t, NUL)
    ensures Without(AfterLast(t), NUL)
  {
    var k := NextSpace(t);
    if k < |t| { NoNulAfterLast(t[k + 1..]); }
  }

  // The first word and the text after the last space, empty when there is none.
  ghost function FirstWord(t: seq<byte>): seq<byte> { t[..NextSpace(t)] }

  ghost function Argument(t: seq<byte>): seq<byte> { if NextSpace(t) < |t| then AfterLast(t) else [] }

  lemma AfterLastStep(t: seq<byte>)
    requires NextSpace(t) < |t|
    ensures AfterLast(t) == AfterLast(t[NextSpace(t) + 1..])
    ensures ShortWords(t) ==> ShortWords(t[NextSpace(t) + 1..])
  {
    hide NextSpace;
  }

  lemma TextsOfCommand(t: seq<byte>, rest: seq<byte>)
    requires Without(t, NUL) && Parsable(Holding(t, rest))
    ensures NameText(Holding(t, rest)) == FirstWord(t)
    ensures NextSpace(t) == |t| ==> ArgText(Holding(t, rest)) == []
    ensures NextSpace(t) < |t| ==>
      Holding(t, rest)[NextSpace(t) + 1..] == Holding(t[NextSpace(t) + 1..], rest) &&
      ArgText(Holding(t, rest)) == CStr(LastWindow(Holding(t[NextSpace(t) + 1..], rest)))
  {
    hide NextSpace, WordEnd, LastWindow, StopsInTime, CStr, Without;
    var m, i := Holding(t, rest), NextSpace(t);
    NextSpaceMeans(t);
    NameOfCommand(t, rest);
    assert m[..i] == t[..i] && m[|t|] == NUL;
    if i < |t| { Behind(t, rest, i); }
  }

  lemma CommandIsParsed(t: seq<byte>, rest: seq<byte>)
    requires Without(t, NUL) && ShortWords(t) && Parsable(Holding(t, rest))
    ensures NameText(Holding(t, rest)) == FirstWord(t)
    ensures NextSpace(t) == |t| || NoStaleSpace(t, rest) ==> ArgText(Holding(t, rest)) == Argument(t)
    ensures NextSpace(t) < |t| && !NoStaleSpace(t, rest) ==>
      |LastWindow(Holding(t, rest)[NextSpace(t) + 1..])| < |rest|
  {
    hide NextSpace, AfterLast, LastWindow, ShortWords, Parsable, NameText, ArgText, Without, FirstWord, CStr;
    TextsOfCommand(t, rest);
    NextSpaceMeans(t);
    if NextSpace(t) < |t| {
      var u := t[NextSpace(t) + 1..];
      AfterLastStep(t);
      NoNulAfterLast(t);
      WindowOfCommand(u, rest);
      StringAtFront(Holding(AfterLast(u), rest), AfterLast(u));
    }
  }

  // Thirty-one zeros behind the terminator are always enough.
  lemma {:induction false} ZerosStop(t: seq<byte>, rest: seq<byte>)
    requires ShortWords(t) && |rest| >= ARG_SIZE - 1
    requires forall k {:trigger rest[k]} :: 0 <= k < ARG_SIZE - 1 ==> rest[k] == NUL
    ensures StopsInTime(Holding(t, rest)) && NoStaleSpace(t, rest)
  {
    var m, i := Holding(t, rest), NextSpace(t);
    if i < |t| {
      Behind(t, rest, i);
      WindowAt(m, i);
      ZerosStop(t[i + 1..], rest);
    } else {
      assert forall j {:trigger m[j]} :: 0 <= j < |t| ==> m[j] == t[j];
      assert m[|t|] == NUL;
      assert forall j {:trigger m[j]} :: |t| < j < ARG_SIZE ==> m[j] == rest[j - |t| - 1];
    }
  }

  lemma HoldsTerminator(t: seq<byte>, rest: seq<byte>)
    ensures |Holding(t, rest)| > |t| && Holding(t, rest)[|t|] == NUL
  {
  }

  lemma CommandStops(t: seq<byte>, rest: seq<byte>)
    requires Without(t, NUL) && NextSpace(t) < ARG_SIZE
    requires NextSpace(t) < |t| ==> StopsInTime(Holding(t[NextSpace(t) + 1..], rest))
    ensures Parsable(Holding(t, rest))
  {
    hide StopsInTime, WordEnd, Holding, NextSpace, Without;
    var i := NextSpace(t);
    HoldsTerminator(t, rest);
    NameOfCommand(t, rest);
    if i < |t| { Behind(t, rest, i); }
  }

  lemma CleanCommandIsParsed(t: seq<byte>, rest: seq<byte>)
    requires Without(t, NUL) && ShortWords(t) && |rest| >= ARG_SIZE - 1
    requires forall k {:trigger rest[k]} :: 0 <= k < ARG_SIZE - 1 ==> rest[k] == NUL
    ensures Parsable(Holding(t, rest))
    ensures NameText(Holding(t, rest)) == FirstWord(t) && ArgText(Holding(t, rest)) == Argument(t)
  {
    var i := NextSpace(t);
    hide StopsInTime, Holding, Parsable, WordEnd, NoStaleSpace, NameText, ArgText, Argument, FirstWord, NextSpace;
    ZerosStop(t, rest);
    if i < |t| { ZerosStop(t[i + 1..], rest); }
    hide ShortWords;
    CommandStops(t, rest);
    CommandIsParsed(t, rest);
  }

  // A command is its first word, or that, a space, anything up to a further space, and
  // the argument; neither word nor argument holds a space.
  lemma {:induction false} ArgumentEndsCommand(t: seq<byte>) returns (between: seq<byte>)
    ensures Without(FirstWord(t), SPACE) && Without(Argument(t), SPACE)
    ensures if NextSpace(t) >= |t| then t == FirstWord(t) && Argument(t) == []
            else t == FirstWord(t) + [SPACE] + between + Argument(t)
    ensures between == [] || between[|between| - 1] == SPACE
    decreases |t|
  {
    hide *;
    between := [];
    var u := CommandStep(t);
    if NextSpace(t) < |t| {
      var more := ArgumentEndsCommand(u);
      if NextSpace(u) < |u| { between := FirstWord(u) + [SPACE] + more; }
      assert t == FirstWord(t) + [SPACE] + between + Argument(t);
    }
  }

  // Behind the first word and its space the rest of the command, which ends as it does.
  lemma CommandStep(t: seq<byte>) returns (u: seq<byte>)
    ensures Without(FirstWord(t), SPACE)
    ensures NextSpace(t) >= |t| ==> t == FirstWord(t) && Argument(t) == [] && Without(Argument(t), SPACE)
    ensures NextSpace(t) < |t| ==>
      && t == FirstWord(t) + [SPACE] + u && |u| < |t|
      && Argument(t) == if NextSpace(u) < |u| then Argument(u) else u
    ensures NextSpace(u) >= |u| ==> Without(u, SPACE)
  {
    NextSpaceMeans(t);
    var k := NextSpace(t);
    u := if k < |t| then t[k + 1..] else [];
    NextSpaceMeans(u);
    hide NextSpace;
    assert k < |t| ==> t == t[..k] + [t[k]] + u && AfterLast(t) == AfterLast(u);
    assert NextSpace(u) >= |u| ==> AfterLast(u) == u;
  }

  lemma {:induction false} LastIsWord(t: seq<byte>)
    requires Without(t, NUL) && ShortWords(t)
    ensures |AfterLast(t)| < ARG_SIZE && Without(AfterLast(t), NUL) && Without(AfterLast(t), SPACE)
    decreases |t|
  {
    NextSpaceMeans(t);
    hide NextSpace;
    if NextSpace(t) < |t| { LastIsWord(t[NextSpace(t) + 1..]); }
  }

  const GREP: seq<byte> := [103, 114, 101, 112]

  lemma GrepCommand(s: seq<byte>)
    requires IsArgument(s)
    ensures var t := GREP + [SPACE] + s; Without(t, NUL) && ShortWords(t) && FirstWord(t) == GREP && Argument(t) == s
  {
    var t := GREP + [SPACE] + s;
    NextSpaceIs(s, |s|);
    assert forall j {:trigger t[j]} :: 0 <= j < 4 ==> t[j] == GREP[j];
    assert forall j {:trigger t[j]} :: 5 <= j < |t| ==> t[j] == s[j - 5];
    assert t[4] == SPACE && t[4 + 1..] == s && t[..4] == GREP;
    NextSpaceIs(t, 4);
    hide NextSpace;
    assert ShortWords(s) && AfterLast(s) == s;
  }

  // The patterns that grep can be given are the strings of 1 to 31 bytes without
  // a space: each is the argument of a command of short words, and no other is.
  lemma ArgumentsOfCommands(s: seq<byte>)
    ensures IsArgument(s) <==> s != [] && exists t :: Without(t, NUL) && ShortWords(t) && Argument(t) == s
  {
    if IsArgument(s) {
      GrepCommand(s);
    } else if s != [] && exists t :: Without(t, NUL) && ShortWords(t) && Argument(t) == s {
      var t :| Without(t, NUL) && ShortWords(t) && Argument(t) == s;
      LastIsWord(t);
    }
  }

  // "c a" typed over a longer line whose sixth byte is 'b': the argument is b.
  lemma StaleSpaceIsRead(zeros: seq<byte>)
    requires |zeros| == ARG_SIZE && forall k {:trigger zeros[k]} :: 0 <= k < ARG_SIZE ==> zeros[k] == NUL
    ensures var t, rest := [99, SPACE, 97], [SPACE, 98] + zeros;
      ShortWords(t) && Parsable(Holding(t, rest)) && Argument(t) == [97] && ArgText(Holding(t, rest)) == [98]
  {
    var t: seq<byte>, rest := [99, SPACE, 97], [SPACE, 98] + zeros;
    StaleWords();
    hide NextSpace, WordEnd, Holding, StopsInTime, LastWindow, ShortWords, AfterLast, CStr;
    NameOfCommand(t, rest);
    Behind(t, rest, 1);
    assert t[2..] == [97];
    StaleWindow(zeros);
  }

  lemma StaleWords()
    ensures var t := [99, SPACE, 97];
      Without(t, NUL) && NextSpace(t) == 1 && ShortWords(t) && AfterLast(t) == [97]
  {
    var t: seq<byte> := [99, SPACE, 97];
    NextSpaceIs(t, 1);
    NextSpaceIs([97], 1);
    hide NextSpace;
    assert t[2..] == [97];
    assert AfterLast([97]) == [97] && ShortWords([97]);
  }

  lemma StaleWindow(zeros: seq<byte>)
    requires |zeros| == ARG_SIZE && forall k {:trigger zeros[k]} :: 0 <= k < ARG_SIZE ==> zeros[k] == NUL
    ensures var u := Holding([97], [SPACE, 98] + zeros); StopsInTime(u) && CStr(LastWindow(u)) == [98]
  {
    var u, v := Holding([97], [SPACE, 98] + zeros), [98] + zeros;
    assert u == [97, NUL, SPACE, 98] + zeros;
    assert u[3..] == v;
    hide Holding;
    WindowAt(u, 2);
    hide NextSpace;
    assert forall k {:trigger v[k]} :: 1 <= k < |v| ==> v[k] == zeros[k - 1];
    WindowIsItself(v);
    hide StopsInTime, LastWindow;
    assert v[..1] == [98];
    StringAtFront(v, [98]);
  }

  lemma WindowIsItself(m: seq<byte>)
    requires |m| >= ARG_SIZE && m[ARG_SIZE - 1] == NUL
    requires forall j {:trigger m[j]} :: 0 <= j < ARG_SIZE ==> m[j] != SPACE
    ensures StopsInTime(m) && LastWindow(m) == m
  {
  }

  // ---- getargs of the kernel ----

  // nbytes meets the size of arg as an unsigned number, so that a negative one
  // counts as enough room.
  method Getargs(arg: array<byte>, buf: array<byte>, nbytes: int) returns (r: int)
    requires arg != buf && |CStr(arg[..])| < arg.Length == ARG_SIZE
    requires nbytes < 0 || nbytes > ARG_SIZE ==> |CStr(arg[..])| < buf.Length
    requires -0x8000_0000 <= nbytes < 0x8000_0000
    modifies buf
    ensures r == if (0 <= nbytes <= ARG_SIZE) || CStr(arg[..]) == [] then -1 else 0
    ensures buf[..] == if r == 0 then Splice(old(buf[..]), 0, CStr(arg[..]) + [NUL]) else old(buf[..])
  {
    ghost var before, text := buf[..], CStr(arg[..]);
    assert forall k {:trigger arg[k]} :: 0 <= k < |text| ==> arg[k] != NUL && arg[k] == text[k];
    assert arg[|text|] == NUL;
    if ARG_SIZE >= nbytes % 0x1_0000_0000 || arg[0] == NUL { return -1; }
    hide CStr, NextSpace;
    var i := 0;
    while arg[i] != NUL
      invariant 0 <= i <= |text|
      invariant forall k {:trigger buf[k]} :: 0 <= k < i ==> buf[k] == text[k]
      invariant forall k {:trigger buf[k]} :: i <= k < buf.Length ==> buf[k] == before[k]
      decreases |text| - i
    {
      buf[i] := arg[i];
      i := i + 1;
    }
    buf[i] := NUL;
    r := 0;
    IsSplice(before, 0, text + [NUL], buf[..]);
  }
}
