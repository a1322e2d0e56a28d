// Whole runs of open, read and close on the descriptor table.
module DescriptorRuns {
  import opened CString
  import opened FileSystem
  import opened Descriptors

  datatype Op = OpenOp(name: seq<byte>) | ReadOp(fdr: nat, n: nat) | CloseOp(fdr: nat)

  ghost predicate Small(t: Table) { forall d {:trigger t[d]} :: d in t ==> t[d].inode < 256 }

  // The descriptor the next open gets.
  ghost function Free(t: Table): int {
    if 2 !in t then 2 else if 3 !in t then 3 else if 4 !in t then 4
    else if 5 !in t then 5 else if 6 !in t then 6 else if 7 !in t then 7 else -1
  }

  lemma FreeIsTheLowest(t: Table, d: int)
    ensures LowestFree(t, d) <==> d == Free(t)
  {
    assert Free(t) == -1 ==> forall j :: 2 <= j < SLOTS ==> j in t;
    assert LowestFree(t, d) && d > 2 ==> 2 in t;
    assert LowestFree(t, d) && d > 3 ==> 3 in t;
    assert LowestFree(t, d) && d > 4 ==> 4 in t;
    assert LowestFree(t, d) && d > 5 ==> 5 in t;
    assert LowestFree(t, d) && d > 6 ==> 6 in t;
    assert LowestFree(t, d) && d == -1 ==> 2 in t && 3 in t && 4 in t && 5 in t && 6 in t && 7 in t;
  }

  ghost function Do(img: Image, t: Table, op: Op): (u: Table)
    requires HasTables(img) && Small(t)
    ensures Small(u)
  {
    match op
    case OpenOp(name) =>
      var i := Lookup(img, name, 0);
      if i.None? || Free(t) == -1 then t else t[Free(t) := Opened(EntryOf(img, i.value))]
    case ReadOp(d, n) => if d in t then t[d := Advanced(img, t[d], n)] else t
    case CloseOp(d) => if d >= 2 then t - {d} else t
  }

  ghost function Run(img: Image, t: Table, ops: seq<Op>): (u: Table)
    requires HasTables(img) && Small(t)
    ensures Small(u)
    decreases |ops|
  {
    if ops == [] then t else Run(img, Do(img, t, ops[0]), ops[1..])
  }

  // What the reads of a run hand over through d, one chunk a read.
  ghost function Output(img: Image, t: Table, ops: seq<Op>, d: nat): seq<seq<byte>>
    requires HasTables(img) && Small(t)
    decreases |ops|
  {
    if ops == [] then []
    else
      (if ops[0].ReadOp? && ops[0].fdr == d && d in t then [ReadChunk(img, t[d], ops[0].n)] else []) +
      Output(img, Do(img, t, ops[0]), ops[1..], d)
  }

  // ---- One descriptor on its own ----

  ghost function Sizes(ops: seq<Op>, d: nat): seq<nat> {
    if ops == [] then []
    else (if ops[0].ReadOp? && ops[0].fdr == d then [ops[0].n] else []) + Sizes(ops[1..], d)
  }

  ghost function Reads(img: Image, f: FileDesc, sizes: seq<nat>): seq<seq<byte>>
    requires HasTables(img) && f.inode < 256
    decreases |sizes|
  {
    if sizes == [] then [] else [ReadChunk(img, f, sizes[0])] + Reads(img, Advanced(img, f, sizes[0]), sizes[1..])
  }

  ghost function After(img: Image, f: FileDesc, sizes: seq<nat>): FileDesc
    requires HasTables(img) && f.inode < 256
    decreases |sizes|
  {
    if sizes == [] then f else After(img, Advanced(img, f, sizes[0]), sizes[1..])
  }

  lemma OtherOps(img: Image, t: Table, op: Op, d: nat)
    requires HasTables(img) && Small(t) && d in t && op != CloseOp(d)
    ensures d in Do(img, t, op)
    ensures Do(img, t, op)[d] == if op.ReadOp? && op.fdr == d then Advanced(img, t[d], op.n) else t[d]
  {
    hide ReadChunk, Advanced;
  }

  // As long as d is not closed, it is as if only its own reads had been done,
  // whatever is opened, read and closed beside it.
  lemma {:induction false} OpenDescriptorIsItsOwn(img: Image, t: Table, ops: seq<Op>, d: nat)
    requires HasTables(img) && Small(t) && d in t && CloseOp(d) !in ops
    ensures d in Run(img, t, ops) && Run(img, t, ops)[d] == After(img, t[d], Sizes(ops, d))
    ensures Output(img, t, ops, d) == Reads(img, t[d], Sizes(ops, d))
    decreases |ops|
  {
    if ops != [] {
      var u := Do(img, t, ops[0]);
      OtherOps(img, t, ops[0], d);
      hide Do, ReadChunk, Advanced;
      OpenDescriptorIsItsOwn(img, u, ops[1..], d);
      if ops[0].ReadOp? && ops[0].fdr == d {
        var sizes := Sizes(ops, d);
        assert sizes[0] == ops[0].n && sizes[1..] == Sizes(ops[1..], d);
      } else {
        assert Sizes(ops, d) == Sizes(ops[1..], d);
      }
    }
  }

  lemma {:induction false} FileReadsAreChunks(img: Image, f: FileDesc, sizes: seq<nat>)
    requires HasTables(img) && f.inode < 256 && f.ops == File && f.fposition <= |FileAt(img, f)|
    ensures Reads(img, f, sizes) == Chunks(FileAt(img, f), f.fposition, sizes)
    ensures After(img, f, sizes).fposition == f.fposition + |Concat(Reads(img, f, sizes))|
    decreases |sizes|
  {
    if sizes != [] {
      var c, g := ReadChunk(img, f, sizes[0]), Advanced(img, f, sizes[0]);
      assert FileAt(img, g) == FileAt(img, f);
      FileReadsAreChunks(img, g, sizes[1..]);
      assert Reads(img, f, sizes)[1..] == Reads(img, g, sizes[1..]);
    }
  }

  // What comes out through an open file is the file, from where it stood to
  // where it stands.
  lemma FileComesOutWhole(img: Image, t: Table, ops: seq<Op>, d: nat)
    requires HasTables(img) && Small(t) && d in t && CloseOp(d) !in ops
    requires t[d].ops == File && t[d].fposition <= |FileAt(img, t[d])|
    ensures d in Run(img, t, ops)
    ensures var p := Run(img, t, ops)[d].fposition;
      t[d].fposition <= p <= |FileAt(img, t[d])| &&
      Concat(Output(img, t, ops, d)) == FileAt(img, t[d])[t[d].fposition..p]
  {
    OpenDescriptorIsItsOwn(img, t, ops, d);
    FileReadsAreChunks(img, t[d], Sizes(ops, d));
    ChunksReassemble(FileAt(img, t[d]), t[d].fposition, Sizes(ops, d));
  }

  // What a directory read hands over at position i.
  ghost function ListedAt(img: Image, i: nat): seq<byte>
    requires HasTables(img)
  {
    if i < Entries(img) then Padded(NameOf(img, i)) else []
  }

  ghost function Listing(img: Image, i: nat, n: nat): (names: seq<seq<byte>>)
    requires HasTables(img)
    ensures |names| == n
    decreases n
  {
    if n == 0 then [] else [ListedAt(img, i)] + Listing(img, i + 1, n - 1)
  }

  lemma {:induction false} ListingAt(img: Image, i: nat, n: nat, k: nat)
    requires HasTables(img) && k < n
    ensures Listing(img, i, n)[k] == ListedAt(img, i + k)
    decreases n
  {
    hide ListedAt, HasTables;
    if k > 0 { ListingAt(img, i + 1, n - 1, k - 1); }
  }

  lemma {:induction false} NothingPastTheEnd(img: Image, i: nat, n: nat)
    requires HasTables(img) && i >= Entries(img)
    ensures Listing(img, i, n) == Listing(img, i + 1, n)
    decreases n
  {
    if n > 0 { NothingPastTheEnd(img, i + 1, n - 1); }
  }

  lemma DirectoryStep(img: Image, f: FileDesc, n: nat, rest: nat)
    requires HasTables(img) && f.inode < 256 && f.ops == Dir
    ensures ReadChunk(img, f, n) == ListedAt(img, f.fposition)
    ensures Listing(img, Advanced(img, f, n).fposition, rest) == Listing(img, f.fposition + 1, rest)
  {
    hide Padded, NameOf, Listing;
    if f.fposition >= Entries(img) { NothingPastTheEnd(img, f.fposition, rest); }
  }

  // Reading a directory from entry i on hands over the names from i on, one a
  // read, and nothing once the entries have run out.
  lemma {:induction false} DirectoryReadsList(img: Image, f: FileDesc, sizes: seq<nat>)
    requires HasTables(img) && f.inode < 256 && f.ops == Dir
    ensures Reads(img, f, sizes) == Listing(img, f.fposition, |sizes|)
    decreases |sizes|
  {
    hide HasTables, ReadChunk, Advanced, ListedAt;
    if sizes != [] {
      DirectoryStep(img, f, sizes[0], |sizes| - 1);
      DirectoryReadsList(img, Advanced(img, f, sizes[0]), sizes[1..]);
    }
  }

  // Listing and looking up undo each other: the k-th name that comes out of a
  // directory read from its start is the name under which entry k is found.
  lemma ListedEntryIsFound(img: Image, t: Table, ops: seq<Op>, d: nat, k: nat)
    requires HasTables(img) && Small(t) && d in t && CloseOp(d) !in ops && DistinctNames(img)
    requires t[d].ops == Dir && t[d].fposition == 0 && k < |Sizes(ops, d)|
    ensures |Output(img, t, ops, d)| == |Sizes(ops, d)|
    ensures if k < Entries(img)
      then Lookup(img, CStr(Output(img, t, ops, d)[k] + [NUL]), 0) == Some(k)
      else Output(img, t, ops, d)[k] == []
  {
    OpenDescriptorIsItsOwn(img, t, ops, d);
    hide Output, Reads, Run, Lookup;
    DirectoryReadsList(img, t[d], Sizes(ops, d));
    ListingAt(img, 0, |Sizes(ops, d)|, k);
    if k < Entries(img) {
      PaddedReadsBack(NameOf(img, k));
      ListedNameIsFound(img, k);
    }
  }

  // ---- The system calls do what the map does ----

  // What a caller has to see to: terminated names, no read of the keyboard, a
  // buffer that takes what comes, no close of descriptor 8.
  ghost predicate Allowed(k: Files, op: Op, room: nat) {
    match op
    case OpenOp(name) =>
      Without(name, NUL) &&
      (HasTables(k.img) ==> var i := Lookup(k.img, name, 0); i.Some? ==> k.Openable(EntryOf(k.img, i.value)))
    case ReadOp(d, n) => d != 0 && n <= room && NAME <= room
    case CloseOp(d) => d != SLOTS
  }

  method Perform(k: Files, op: Op, buf: array<byte>) returns (r: int)
    requires k.Valid() && Allowed(k, op, buf.Length)
    modifies k`dt, k.fd, buf
    ensures k.Valid() && Small(old(k.Table())) && k.Table() == Do(k.img, old(k.Table()), op)
    ensures op.OpenOp? ==> r == if Lookup(k.img, op.name, 0).None? then -1 else Free(old(k.Table()))
    ensures op.OpenOp? && r != -1 ==>
      r !in old(k.Table()) && r in k.Table() && k.Table() - {r} == old(k.Table()) && k.Table()[r].fposition == 0
    ensures op.CloseOp? ==> r == if op.fdr >= 2 && op.fdr in old(k.Table()) then 0 else -1
    ensures op.CloseOp? ==> k.Table() == if r == 0 then old(k.Table()) - {op.fdr} else old(k.Table())
    ensures op.ReadOp? ==>
      if op.fdr in old(k.Table()) && op.fdr != 1 then
        var c := ReadChunk(k.img, old(k.Table())[op.fdr], op.n);
        r == |c| && buf[..] == Splice(old(buf[..]), 0, c)
      else r == -1 && buf[..] == old(buf[..])
  {
    match op {
      case OpenOp(name) =>
        r := k.Open(name);
        FreeIsTheLowest(old(k.Table()), r);
      case ReadOp(d, n) => r := k.Read(d, buf, 0, n);
      case CloseOp(d) => r := k.Close(d);
    }
  }

  // A whole run; the chunks are what the reads through d have put into the buffer.
  method Serve(k: Files, ops: seq<Op>, d: nat, buf: array<byte>) returns (chunks: seq<seq<byte>>)
    requires k.Valid() && d >= 2 && forall i {:trigger ops[i]} :: 0 <= i < |ops| ==> Allowed(k, ops[i], buf.Length)
    modifies k`dt, k.fd, buf
    ensures k.Valid() && Small(old(k.Table())) && k.Table() == Run(k.img, old(k.Table()), ops)
    ensures chunks == Output(k.img, old(k.Table()), ops, d)
  {
    assert ops[0..] == ops;
    chunks := [];
    ghost var was := k.Table();
    hide Do, Allowed, Splice;
    var i := 0;
    while i < |ops|
      invariant 0 <= i <= |ops| && k.Valid() && Small(was) && Small(k.Table())
      invariant Run(k.img, k.Table(), ops[i..]) == Run(k.img, was, ops)
      invariant chunks + Output(k.img, k.Table(), ops[i..], d) == Output(k.img, was, ops, d)
    {
      assert ops[i..][0] == ops[i] && ops[i..][1..] == ops[i + 1..];
      ghost var t := k.Table();
      OutputStep(k.img, t, ops[i..], d, chunks);
      var c := PerformOne(k, ops[i], d, buf);
      chunks := chunks + c;
      i := i + 1;
    }
    assert chunks + [] == chunks;
  }

  // What one operation delivers through d: one chunk or none.
  ghost function Delivered(img: Image, t: Table, op: Op, d: nat): seq<seq<byte>>
    requires HasTables(img) && Small(t)
  {
    if op.ReadOp? && op.fdr == d && d in t then [ReadChunk(img, t[d], op.n)] else []
  }

  lemma OutputStep(img: Image, t: Table, ops: seq<Op>, d: nat, chunks: seq<seq<byte>>)
    requires HasTables(img) && Small(t) && ops != []
    ensures chunks + Output(img, t, ops, d) ==
      chunks + Delivered(img, t, ops[0], d) + Output(img, Do(img, t, ops[0]), ops[1..], d)
  {
  }

  method PerformOne(k: Files, op: Op, d: nat, buf: array<byte>) returns (c: seq<seq<byte>>)
    requires k.Valid() && Allowed(k, op, buf.Length) && d >= 2
    modifies k`dt, k.fd, buf
    ensures k.Valid() && Small(old(k.Table())) && k.Table() == Do(k.img, old(k.Table()), op)
    ensures c == Delivered(k.img, old(k.Table()), op, d)
  {
    ghost var t, was := k.Table(), buf[..];
    var r := Perform(k, op, buf);
    c := [];
    if op.ReadOp? && op.fdr == d && r >= 0 {
      SpliceInFront(was, ReadChunk(k.img, t[d], op.n), buf[..]);
      assert buf[..][..r] == buf[..r];
      c := [buf[..r]];
    }
  }

  lemma SpliceInFront(before: seq<byte>, c: seq<byte>, after: seq<byte>)
    requires |c| <= |before| && after == Splice(before, 0, c)
    ensures after[..|c|] == c
  {
  }
}
