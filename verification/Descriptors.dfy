// The file-descriptor table and the system calls on it
// (student-distrib/syscall.c, with file_read and directory_read from
// student-distrib/filesystem.c).
module Descriptors {
  import opened CString
  import opened FileSystem

  // The function-pointer table a descriptor carries.
  datatype Ops = TermIn | TermOut | Rtc | Dir | File

  datatype FileDesc = FileDesc(ops: Ops, inode: nat, fposition: nat, flags: bool)

  const SLOTS := 8

  // createFD's choice of table from the entry's type.
  function OpsFor(ftype: byte): Ops {
    if ftype == 0 then Rtc else if ftype == 1 then Dir else File
  }

  // What open builds for a directory entry: only type 2 keeps its inode number.
  function Opened(d: Dentry): FileDesc {
    FileDesc(OpsFor(d.ftype), if d.ftype == 2 then d.inode else 0, 0, true)
  }

  // ---- The specification: a finite map of open descriptors ----

  type Table = map<nat, FileDesc>

  ghost function OpenIn(fd: seq<FileDesc>): Table {
    map i | 0 <= i < |fd| && fd[i].flags :: fd[i]
  }

  // d is the lowest descriptor in 2..7 that is not open, if any.
  ghost predicate LowestFree(t: Table, d: int) {
    if d == -1 then forall j :: 2 <= j < SLOTS ==> j in t
    else 2 <= d < SLOTS && d !in t && forall j :: 2 <= j < d ==> j in t
  }

  lemma FreeByKeys(t: Table, u: Table, d: int)
    requires t.Keys == u.Keys
    ensures LowestFree(t, d) <==> LowestFree(u, d)
  {
    assert forall j :: j in t <==> j in t.Keys;
    assert forall j :: j in u <==> j in u.Keys;
  }

  // The number of bytes a read of n hands over, its bytes, and the entry after it.
  ghost function FileAt(img: Image, f: FileDesc): (s: seq<byte>)
    requires f.inode < 256
  {
    if ValidInode(img, f.inode) then Content(img, f.inode) else []
  }

  ghost function ReadChunk(img: Image, f: FileDesc, n: nat): (c: seq<byte>)
    requires HasTables(img) && f.inode < 256
  {
    match f.ops
    case File => Chunk(FileAt(img, f), f.fposition, n)
    case Dir => if f.fposition < Entries(img) then Padded(NameOf(img, f.fposition)) else []
    case _ => []
  }

  ghost function Advanced(img: Image, f: FileDesc, n: nat): (g: FileDesc)
    requires HasTables(img) && f.inode < 256
    ensures g.inode == f.inode && g.ops == f.ops && g.flags == f.flags
  {
    match f.ops
    case File => f.(fposition := f.fposition + |ReadChunk(img, f, n)|)
    case Dir => f.(fposition := f.fposition + if f.fposition < Entries(img) then 1 else 0)
    case _ => f
  }

  // ---- The implementation ----

  // A table that a process can hold: the terminal's two descriptors where they
  // belong, and files with valid inodes.
  ghost predicate WellFormed(img: Image, fd: seq<FileDesc>) {
    |fd| == SLOTS
    && forall i {:trigger fd[i]} :: 0 <= i < SLOTS ==>
         && fd[i].inode < 256
         && (fd[i].flags && fd[i].ops == File ==> ValidInode(img, fd[i].inode))
         && (fd[i].flags ==> (fd[i].ops == TermIn <==> i == 0) && (fd[i].ops == TermOut <==> i == 1))
  }

  // The table once descriptors 0 and 1 are the terminal's.
  ghost function WithTerminal(fd: seq<FileDesc>): seq<FileDesc>
    requires |fd| == SLOTS
  {
    fd[0 := FileDesc(TermIn, 0, 0, true)][1 := FileDesc(TermOut, 0, 1, true)]
  }

  class Files {
    const img: Image
    const fd: array<FileDesc>
    var dt: Option<Dentry>
    // Every byte the process has written to descriptor 1.
    var stdout: seq<byte>

    // The table has eight entries; 0 and 1 are the terminal's once a process
    // runs; every file descriptor names a valid inode (a byte, so below 256).
    ghost predicate Valid()
      reads fd
    {
      HasTables(img) && |img| > BLOCK && WellFormed(img, fd[..])
    }

    ghost predicate Started()
      reads fd
    {
      Valid() && 0 in Table() && 1 in Table()
    }

    ghost function Table(): Table
      reads fd
    {
      OpenIn(fd[..])
    }

    constructor (img: Image)
      requires HasTables(img) && |img| > BLOCK
      ensures this.img == img && stdout == [] && Valid() && fresh(fd) && Table() == map[]
    {
      this.img := img;
      fd := new FileDesc[SLOTS](_ => FileDesc(File, 0, 0, false));
      dt := None;
      stdout := [];
    }

    // Descriptors 0 and 1 become the terminal; the rest are left as they are.
    method InitFotp()
      requires Valid()
      modifies fd
      ensures Started()
      ensures Table() == old(Table())[0 := FileDesc(TermIn, 0, 0, true)][1 := FileDesc(TermOut, 0, 1, true)]
      ensures fd[..] == WithTerminal(old(fd[..]))
    {
      fd[0] := FileDesc(TermIn, 0, 0, true);
      fd[1] := FileDesc(TermOut, 0, 1, true);
    }

    // memcpy of a saved table over the current one.
    method Restore(saved: seq<FileDesc>)
      requires Valid() && WellFormed(img, saved)
      modifies fd
      ensures Valid() && fd[..] == saved
    {
      forall i | 0 <= i < SLOTS { fd[i] := saved[i]; }
      assert fd[..] == saved;
    }

    // Every file a lookup can return has a valid inode.
    ghost predicate Openable(d: Dentry) {
      Opened(d).ops == File ==> ValidInode(img, Opened(d).inode)
    }

    method CreateFD() returns (r: int)
      requires Valid() && dt.Some? && Openable(dt.value)
      modifies fd
      ensures Valid()
      ensures LowestFree(old(Table()), r)
      ensures Table() == if r == -1 then old(Table()) else old(Table())[r := Opened(dt.value)]
    {
      var d := dt.value.ftype;
      var fotp := if d == 0 then Rtc else if d == 1 then Dir else File;
      var i := 2;
      while i < SLOTS
        invariant 2 <= i <= SLOTS
        invariant forall j :: 2 <= j < i ==> fd[j].flags
      {
        if !fd[i].flags {
          fd[i] := FileDesc(fotp, if d == 2 then dt.value.inode else 0, 0, true);
          return i;
        }
        i := i + 1;
      }
      return -1;
    }

    // A name that is not found, and a full table, both give -1.
    method Open(fname: seq<byte>) returns (r: int)
      requires Valid() && Without(fname, NUL)
      requires var i := Lookup(img, fname, 0); i.Some? ==> Openable(EntryOf(img, i.value))
      modifies this`dt, fd
      ensures Valid()
      ensures var i := Lookup(img, fname, 0);
        if i.None? then r == -1 && Table() == old(Table())
        else LowestFree(old(Table()), r) &&
             Table() == if r == -1 then old(Table())
                        else old(Table())[r := Opened(EntryOf(img, i.value))]
    {
      var found;
      found, dt := ReadDentryByName(img, fname);
      if found == -1 { return -1; }
      r := CreateFD();
    }

    // The source's bound is 8, one past the table, hence the precondition.
    method Close(fdr: int) returns (r: int)
      requires Valid() && fdr != SLOTS
      modifies fd
      ensures Valid()
      ensures if fdr >= 2 && fdr in old(Table())
              then r == 0 && Table() == old(Table()) - {fdr}
              else r == -1 && Table() == old(Table())
    {
      if fdr >= 2 && fdr <= 8 {
        if !fd[fdr].flags { return -1; }
        fd[fdr] := fd[fdr].(flags := false);
        return 0;
      }
      return -1;
    }

    method FileRead(fdr: nat, buf: array<byte>, at: nat, n: nat) returns (tmp: int)
      requires Valid() && fdr < SLOTS && fd[fdr].flags && fd[fdr].ops == File
      requires at + n <= buf.Length
      modifies fd, buf
      ensures Valid()
      ensures var c := ReadChunk(img, old(fd[fdr]), n);
        && tmp == |c| && buf[..] == Splice(old(buf[..]), at, c)
        && fd[..] == old(fd[..])[fdr := Advanced(img, old(fd[fdr]), n)]
    {
      tmp := ReadData(img, fd[fdr].inode, fd[fdr].fposition, buf, at, n);
      fd[fdr] := fd[fdr].(fposition := fd[fdr].fposition + tmp);
    }

    // One entry per call, 32 bytes whatever n is; 0 for ever once they run out.
    method DirectoryRead(fdr: nat, buf: array<byte>, at: nat) returns (r: int)
      requires Valid() && fdr < SLOTS && fd[fdr].flags && fd[fdr].ops == Dir
      requires at + NAME <= buf.Length
      modifies fd, buf
      ensures Valid()
      ensures var c := ReadChunk(img, old(fd[fdr]), 0);
        && r == |c| && buf[..] == Splice(old(buf[..]), at, c)
        && fd[..] == old(fd[..])[fdr := Advanced(img, old(fd[fdr]), 0)]
    {
      var found, cur := ReadDentryByIndex(img, fd[fdr].fposition);
      if found != 0 {
        IsSplice(buf[..], at, [], buf[..]);
        assert fd[..] == old(fd[..])[fdr := fd[fdr]];
        return 0;
      }
      CopyName(img, cur.value.name, buf, at, NAME);
      fd[fdr] := fd[fdr].(fposition := fd[fdr].fposition + 1);
      return NAME;
    }

    // read on anything but the keyboard (terminal_read is in LineEditor).
    method Read(fdr: int, buf: array?<byte>, at: nat, n: nat) returns (r: int)
      requires Valid() && (fdr == 0 ==> !fd[0].flags)
      requires buf != null ==> at + n <= buf.Length
      requires buf != null && fdr in Table() && Table()[fdr].ops == Dir ==> at + NAME <= buf.Length
      modifies fd, buf
      ensures Valid()
      ensures buf == null || fdr !in old(Table()) || fdr == 1 ==>
        r == -1 && Table() == old(Table()) && (buf != null ==> buf[..] == old(buf[..]))
      ensures buf != null && fdr in old(Table()) && fdr != 1 ==>
        var f := old(Table())[fdr];
        var c := ReadChunk(img, f, n);
        && r == |c| && buf[..] == Splice(old(buf[..]), at, c)
        && Table() == old(Table())[fdr := Advanced(img, f, n)]
    {
      if buf == null || fdr < 0 || fdr > 7 { return -1; }
      if fd[fdr].flags {
        match fd[fdr].ops {
          case File => r := FileRead(fdr, buf, at, n);
          case Dir => r := DirectoryRead(fdr, buf, at);
          case Rtc =>
            IsSplice(buf[..], at, [], buf[..]);
            return 0;
          case TermOut => return -1;
        }
      } else {
        return -1;
      }
    }

    // write(1, ..) reaches terminal_write, which puts every byte.
    method Write(fdr: int, bytes: seq<byte>) returns (r: int)
      requires Started() && fdr == 1
      modifies this`stdout
      ensures r == 0 && stdout == old(stdout) + bytes
    {
      stdout := stdout + bytes;
      return 0;
    }
  }
}
