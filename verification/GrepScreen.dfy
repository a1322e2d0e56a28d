// grep on a terminal: what its writes make of the screen (syscalls/ece391grep.c,
// through terminal_write and putc).
module GrepScreen {
  import opened CString
  import opened FileSystem
  import opened Descriptors
  import opened Console
  import opened ScreenLog
  import opened GrepSpec
  import opened GrepBuffer
  import opened Grep

  lemma CStrWithout(s: seq<byte>, b: byte)
    requires Without(s, b)
    ensures Without(CStr(s), b)
  {
  }

  lemma {:induction false} PiecesWithout(t: seq<byte>, b: byte)
    requires Without(t, b)
    ensures forall k :: 0 <= k < |Pieces(t)| ==> Without(Pieces(t)[k], b)
    decreases |t|
  {
    if t != [] {
      hide PieceLen;
      PiecesWithout(AfterPiece(t), b);
      assert Pieces(t)[1..] == Pieces(AfterPiece(t));
      forall k | 0 <= k < |Pieces(t)| ensures Without(Pieces(t)[k], b) {
        if k > 0 { assert Pieces(t)[k] == Pieces(AfterPiece(t))[k - 1]; }
      }
    }
  }

  lemma {:induction false} PickedWithout(fname: seq<byte>, pieces: seq<seq<byte>>, shown: seq<bool>, b: byte)
    requires |shown| == |pieces| && Without(fname, b) && b != COLON && b != NEWLINE
    requires forall k :: 0 <= k < |pieces| ==> Without(pieces[k], b)
    ensures Without(Picked(fname, pieces, shown), b)
  {
    if pieces != [] {
      CStrWithout(pieces[0], b);
      hide CStr;
      PickedWithout(fname, pieces[1..], shown[1..], b);
    }
  }

  // What is printed for a file has no byte that neither its name nor its text has,
  // apart from the colons and newlines.
  lemma StretchWithout(junk: bool, s: seq<byte>, fname: seq<byte>, t: seq<byte>, out: seq<byte>, b: byte)
    requires Stretch(junk, s, fname, t, out) && Without(fname, b) && Without(t, b) && b != COLON && b != NEWLINE
    ensures Without(out, b)
  {
    hide Stretch, Pieces, Picked, Fair;
    var pieces, shown := StretchIsFair(junk, s, fname, t, out);
    var c := CutAt(junk, t);
    PiecesWithout(t[..c], b);
    PiecesWithout(t[c..], b);
    PickedWithout(fname, pieces, shown, b);
  }

  lemma {:induction false} JoinedWithout(parts: seq<seq<byte>>, b: byte)
    requires forall i :: 0 <= i < |parts| ==> Without(parts[i], b)
    ensures Without(Joined(parts), b)
  {
    if parts != [] {
      JoinedWithout(parts[1..], b);
    }
  }

  // No visible file has a backspace in its name or its text.
  ghost predicate NoBackspaces(img: Image)
    requires HasTables(img)
  {
    forall i {:trigger NameOf(img, i)} :: 0 <= i < Entries(img) && !Hidden(NameOf(img, i)) ==>
      var name := NameOf(img, i);
      Without(name, BACKSPACE) && Without(TextOf(img, EntryOf(img, Lookup(img, name, 0).value)), BACKSPACE)
  }

  lemma PartsWithout(img: Image, s: seq<byte>, out: seq<byte>, junks: seq<bool>, parts: seq<seq<byte>>)
    requires HasTables(img) && NoBackspaces(img) && Printout(img, s, out, junks, parts)
    ensures Without(out, BACKSPACE)
  {
    hide Stretch, NameOf, Lookup, Hidden, TextOf;
    forall i | 0 <= i < |parts| ensures Without(parts[i], BACKSPACE) {
      assert EntryPart(img, s, i, junks[i], parts[i]);
      var name := NameOf(img, i);
      if !Hidden(name) {
        StretchWithout(junks[i], s, name, TextOf(img, EntryOf(img, Lookup(img, name, 0).value)), parts[i], BACKSPACE);
      }
    }
    JoinedWithout(parts, BACKSPACE);
  }

  // Output outside a read that is not dropped extends what the screen shows.
  lemma ShowsMore(s: Screen, log: seq<byte>, out: seq<byte>)
    requires Shows(s, Wrap(log)) && !s.tflag && s.tbuf != LINE && Without(out, BACKSPACE)
    ensures CanPutAll(s, out) && Shows(Puts(s, out), Wrap(log + out))
    ensures 0 <= s.y < ROWS
  {
    hide Shows, Wrap;
    OutputExtendsLog(s, log, out);
    AllKeptOutsideRead(s.tbuf, out);
    ShownCursor(s, Wrap(log));
  }

  lemma MessagesWithout(img: Image, before: Table, after: Table, search: Option<seq<byte>>, r: int, out: seq<byte>)
    requires HasTables(img) && Outcome(img, before, after, search, r, out) && r != 0
    ensures Without(out, BACKSPACE)
  {
  }

  // The bytes that the program writes.
  method Output(k: Files, search: Option<seq<byte>>)
    returns (r: int, out: seq<byte>, ghost junks: seq<bool>, ghost parts: seq<seq<byte>>)
    requires k.Started() && Searchables(k) && NoBackspaces(k.img) && (search.Some? ==> Without(search.value, NUL))
    modifies k, k.fd
    ensures k.Started() && k.stdout == old(k.stdout) + out && Without(out, BACKSPACE)
    ensures r == 0 ==> search.Some? && Printout(k.img, search.value, out, junks, parts)
    ensures Outcome(k.img, old(k.Table()), k.Table(), search, r, out)
  {
    assert HasTables(k.img);
    hide Printout, NoBackspaces, Searchables, Outcome, OpenIn, Lookup, LowestFree, HasTables, Files.Valid;
    var before := k.stdout;
    ghost var printed;
    ghost var table0 := k.Table();
    r, printed, junks, parts := Grep.Run(k, search);
    out := k.stdout[|before|..];
    assert out == printed;
    if r == 0 {
      PartsWithout(k.img, search.value, printed, junks, parts);
    } else {
      MessagesWithout(k.img, table0, k.Table(), search, r, printed);
    }
  }

  // grep at a prompt: no read is going on and the line buffer is not full.  If the
  // screen showed the end of `log`, it then shows the end of log and the output,
  // wrapped.  Each write is put on the screen at once; grep does not look at the
  // screen, so the bytes are put here in one run.
  method RunOnScreen(k: Files, d: Display, search: Option<seq<byte>>, ghost log: seq<byte>)
    returns (r: int, out: seq<byte>, ghost junks: seq<bool>, ghost parts: seq<seq<byte>>)
    requires k.Started() && Searchables(k) && NoBackspaces(k.img) && (search.Some? ==> Without(search.value, NUL))
    requires d.Valid() && !d.tflag && d.tbuf != LINE && Shows(d.View(), Wrap(log))
    modifies k, k.fd, d, d.mem, d.tbuffer
    ensures k.Started() && k.stdout == old(k.stdout) + out
    ensures d.Valid() && Shows(d.View(), Wrap(log + out))
    ensures r == 0 ==> search.Some? && Printout(k.img, search.value, out, junks, parts)
    ensures Outcome(k.img, old(k.Table()), k.Table(), search, r, out)
  {
    hide Shows, Wrap, Printout, Outcome, NoBackspaces, Searchables, HasTables, Files.Valid;
    r, out, junks, parts := Output(k, search);
    ShowsMore(d.View(), log, out);
    d.PutAll(out);
  }
}
