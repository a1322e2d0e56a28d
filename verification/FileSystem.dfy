// The read-only file-system image (student-distrib/filesystem.c): a boot block
// with the directory, then one 4096-byte inode each, then the data blocks.
// The image is the raw byte sequence at FSYSTEM; the accessors below are the C
// structs' field offsets.
module FileSystem {
  import opened CString

  const BLOCK := 4096
  const NAME := 32
  const ENTRY := 64

  type Image = seq<byte>

  // A little-endian 32-bit word.
  function Word(img: Image, at: nat): (w: nat)
    requires at + 4 <= |img|
    ensures w < 0x1_0000_0000
  {
    img[at] as int + 0x100 * img[at + 1] as int + 0x1_0000 * img[at + 2] as int + 0x100_0000 * img[at + 3] as int
  }

  // The boot block is there, and the inode table it announces fits.
  predicate HasTables(img: Image) {
    |img| >= BLOCK && Word(img, 0) <= 63 && BLOCK * (1 + Word(img, 4)) <= |img|
  }

  function Entries(img: Image): nat
    requires HasTables(img)
  { Word(img, 0) }

  function Inodes(img: Image): nat
    requires HasTables(img)
  { Word(img, 4) }

  function InodeAt(n: nat): nat { BLOCK * (1 + n) }

  // The image has a block where inode n would be.
  predicate InodeIn(img: Image, n: nat) { HasTables(img) && InodeAt(n + 1) <= |img| }

  function Size(img: Image, n: nat): nat
    requires InodeIn(img, n)
  { Word(img, InodeAt(n)) }

  // Where the image keeps block k of inode n.
  function BlockAt(img: Image, n: nat, k: nat): nat
    requires InodeIn(img, n) && k < 1023
  { BLOCK * (1 + Inodes(img) + Word(img, InodeAt(n) + 4 + 4 * k)) }

  function BlockCount(size: nat): nat { (size + BLOCK - 1) / BLOCK }

  // Inode n can be read, has at most 1023 blocks, and they all lie in the image.
  // read_data lets the inode count itself through: the first data block is then taken
  // for an inode.
  ghost predicate ValidInode(img: Image, n: nat) {
    && InodeIn(img, n) && n <= Inodes(img)
    && BlockCount(Size(img, n)) <= 1023
    && forall k :: 0 <= k < BlockCount(Size(img, n)) ==> BlockAt(img, n, k) + BLOCK <= |img|
  }

  // ---- What a file contains ----

  // The first k data blocks of inode n, one after the other.
  ghost function Blocks(img: Image, n: nat, k: nat): (s: seq<byte>)
    requires ValidInode(img, n) && k <= BlockCount(Size(img, n))
    ensures |s| == BLOCK * k
  {
    if k == 0 then []
    else Blocks(img, n, k - 1) + img[BlockAt(img, n, k - 1)..BlockAt(img, n, k - 1) + BLOCK]
  }

  // The file's bytes: its blocks, cut off at its size.
  ghost function Content(img: Image, n: nat): (s: seq<byte>)
    requires ValidInode(img, n)
    ensures |s| == Size(img, n)
  {
    Blocks(img, n, BlockCount(Size(img, n)))[..Size(img, n)]
  }

  lemma {:induction false} BlocksAt(img: Image, n: nat, k: nat, i: nat)
    requires ValidInode(img, n) && k <= BlockCount(Size(img, n)) && i < BLOCK * k
    ensures i / BLOCK < k
    ensures Blocks(img, n, k)[i] == img[BlockAt(img, n, i / BLOCK) + i % BLOCK]
  {
    if i < BLOCK * (k - 1) {
      BlocksAt(img, n, k - 1, i);
    } else {
      assert i / BLOCK == k - 1;
    }
  }

  lemma ContentAt(img: Image, n: nat, i: nat)
    requires ValidInode(img, n) && i < Size(img, n)
    ensures i / BLOCK < BlockCount(Size(img, n))
    ensures Content(img, n)[i] == img[BlockAt(img, n, i / BLOCK) + i % BLOCK]
  {
    BlocksAt(img, n, BlockCount(Size(img, n)), i);
  }

  // What one read at a position hands over.
  ghost function Chunk(file: seq<byte>, offset: nat, length: nat): (c: seq<byte>)
    ensures |c| <= length
    ensures offset >= |file| ==> c == []
    ensures offset < |file| && length > 0 ==> c != []
  {
    if offset >= |file| then []
    else if |file| - offset < length then file[offset..]
    else file[offset..offset + length]
  }

  // Reads through the inode's block list, byte by byte.
  method ReadData(img: Image, inode: nat, offset: nat, buf: array?<byte>, at: nat, length: nat)
    returns (r: int)
    requires HasTables(img) && (inode <= Inodes(img) ==> ValidInode(img, inode))
    requires buf != null ==> at + length <= buf.Length
    modifies buf
    ensures buf == null || inode > Inodes(img) ==> r == -1
    ensures buf != null && inode > Inodes(img) ==> buf[..] == old(buf[..])
    ensures buf != null && inode <= Inodes(img) ==>
      var c := Chunk(Content(img, inode), offset, length);
      r == |c| && buf[..] == Splice(old(buf[..]), at, c)
  {
    if Inodes(img) < inode || buf == null { return -1; }
    ghost var file := Content(img, inode);
    if offset >= Size(img, inode) {
      IsSplice(buf[..], at, [], buf[..]);
      return 0;
    }
    var pos := offset;
    var blockoff, dataoff := pos / BLOCK, pos % BLOCK;
    var bytesread := length;
    if Size(img, inode) - pos < length {
      bytesread := Size(img, inode) - pos;
    }
    var i := 0;
    while i < bytesread
      invariant 0 <= i <= bytesread && pos == offset + i
      invariant blockoff == pos / BLOCK && dataoff == pos % BLOCK
      invariant forall k {:trigger buf[k]} :: at <= k < at + i ==> buf[k] == file[offset + k - at]
      invariant forall k {:trigger buf[k]} :: 0 <= k < at || at + i <= k < buf.Length ==> buf[k] == old(buf[k])
    {
      ContentAt(img, inode, pos);
      buf[at + i] := img[BlockAt(img, inode, blockoff) + dataoff];
      pos := pos + 1;
      i, blockoff, dataoff := i + 1, pos / BLOCK, pos % BLOCK;
    }
    r := bytesread;
    IsSplice(old(buf[..]), at, Chunk(file, offset, length), buf[..]);
  }

  // ---- Reading in chunks ----

  // The chunks that a run of reads with the given request sizes returns.
  ghost function Chunks(file: seq<byte>, pos: nat, sizes: seq<nat>): seq<seq<byte>>
    decreases |sizes|
  {
    if sizes == [] then []
    else
      var c := Chunk(file, pos, sizes[0]);
      [c] + Chunks(file, pos + |c|, sizes[1..])
  }

  ghost function Concat(ss: seq<seq<byte>>): seq<byte> {
    if ss == [] then [] else ss[0] + Concat(ss[1..])
  }

  // However the reads are sized, what they return is the file from the first
  // position to the last, nothing twice and nothing left out.
  lemma {:induction false} ChunksReassemble(file: seq<byte>, pos: nat, sizes: seq<nat>)
    requires pos <= |file|
    ensures pos + |Concat(Chunks(file, pos, sizes))| <= |file|
    ensures Concat(Chunks(file, pos, sizes)) == file[pos..pos + |Concat(Chunks(file, pos, sizes))|]
    decreases |sizes|
  {
    if sizes != [] {
      var c := Chunk(file, pos, sizes[0]);
      ChunksReassemble(file, pos + |c|, sizes[1..]);
      var rest := Concat(Chunks(file, pos + |c|, sizes[1..]));
      assert Chunks(file, pos, sizes)[1..] == Chunks(file, pos + |c|, sizes[1..]);
      assert c + rest == file[pos..pos + |c| + |rest|];
    }
  }

  // A run of positive requests that sees an empty chunk has returned the whole file.
  lemma {:induction false} EmptyChunkMeansAll(file: seq<byte>, pos: nat, sizes: seq<nat>, k: nat)
    requires pos <= |file| && k < |sizes| && forall j :: 0 <= j < |sizes| ==> sizes[j] > 0
    requires k < |Chunks(file, pos, sizes)| && Chunks(file, pos, sizes)[k] == []
    ensures Concat(Chunks(file, pos, sizes)) == file[pos..]
    decreases |sizes|
  {
    var c := Chunk(file, pos, sizes[0]);
    assert Chunks(file, pos, sizes)[1..] == Chunks(file, pos + |c|, sizes[1..]);
    if k == 0 {
      ChunksReassemble(file, pos, sizes);
    } else {
      EmptyChunkMeansAll(file, pos + |c|, sizes[1..], k - 1);
    }
  }

  // ---- The directory ----

  // A directory entry as the kernel keeps it: a pointer to the name inside the
  // image, and the low bytes of the type and inode words.
  datatype Dentry = Dentry(name: nat, ftype: byte, inode: byte)

  datatype Option<T> = None | Some(value: T)

  function EntryAt(i: nat): nat { ENTRY + ENTRY * i }

  function EntryOf(img: Image, i: nat): Dentry
    requires HasTables(img) && i < Entries(img)
  {
    Dentry(EntryAt(i), img[EntryAt(i) + 32], img[EntryAt(i) + 36])
  }

  // The name stored in an entry: at most 32 bytes, fewer when a NUL comes first.
  function NameOf(img: Image, i: nat): (name: seq<byte>)
    requires HasTables(img) && i < Entries(img)
    ensures |name| <= NAME && Without(name, NUL)
  {
    CStr(img[EntryAt(i)..EntryAt(i) + NAME])
  }

  // What a lookup compares: the first 32 bytes.
  function Short(name: seq<byte>): (s: seq<byte>)
    ensures |s| <= NAME
    ensures |name| <= NAME ==> s == name
  {
    if |name| <= NAME then name else name[..NAME]
  }

  // The first entry from i on that carries the name.
  function Lookup(img: Image, name: seq<byte>, i: nat): (r: Option<nat>)
    requires HasTables(img) && i <= Entries(img)
    ensures r.Some? ==> i <= r.value < Entries(img) && NameOf(img, r.value) == Short(name)
    ensures forall j :: i <= j < (if r.Some? then r.value else Entries(img)) ==> NameOf(img, j) != Short(name)
    decreases Entries(img) - i
  {
    hide NameOf, Short;
    if i == Entries(img) then None
    else if NameOf(img, i) == Short(name) then Some(i)
    else Lookup(img, name, i + 1)
  }

  // The kernel's strncmp of a stored name with a C string; the sign of a
  // difference (signed char in the source) is never used.
  method NameDiffers(img: Image, at: nat, name: seq<byte>, n: nat) returns (r: int)
    requires at + n <= |img| && Without(name, NUL)
    ensures r == 0 <==> CStr(img[at..at + n]) == if |name| <= n then name else name[..n]
  {
    var i := 0;
    ghost var s, k := img[at..at + n], IndexOf(img[at..at + n], NUL);
    assert s[..k] == CStr(s);
    while i < n
      invariant i <= n && i <= k && i <= |name|
      invariant s[..i] == name[..i]
    {
      assert img[at + i] == s[i];
      var b: byte := if i < |name| then name[i] else NUL;
      if img[at + i] != b || img[at + i] == NUL {
        assert i < k && i < |name| ==> s[..k][i] != name[i];
        return img[at + i] as int - b as int;
      }
      assert i < k && s[..i + 1] == s[..i] + [s[i]] && name[..i + 1] == name[..i] + [name[i]];
      i := i + 1;
    }
    return 0;
  }

  method ReadDentryByName(img: Image, fname: seq<byte>) returns (r: int, dentry: Option<Dentry>)
    requires HasTables(img) && Without(fname, NUL)
    ensures match Lookup(img, fname, 0)
      case None => r == -1 && dentry == None
      case Some(i) => r == 0 && dentry == Some(EntryOf(img, i))
  {
    hide Word, CStr;
    dentry := None;
    var i := 0;
    while i < Entries(img)
      invariant 0 <= i <= Entries(img)
      invariant Lookup(img, fname, 0) == Lookup(img, fname, i)
    {
      var curDir := EntryAt(i);
      var differs := NameDiffers(img, curDir, fname, NAME);
      if differs == 0 {
        return 0, Some(Dentry(curDir, img[curDir + 32], img[curDir + 36]));
      }
      i := i + 1;
    }
    return -1, None;
  }

  method ReadDentryByIndex(img: Image, index: nat) returns (r: int, dentry: Option<Dentry>)
    requires HasTables(img)
    ensures if index < Entries(img) then r == 0 && dentry == Some(EntryOf(img, index)) else r == -1
  {
    dentry := None;
    if index > Entries(img) { return -1, None; }
    var i := 0;
    while i < Entries(img)
      invariant 0 <= i <= Entries(img) && i <= index
    {
      var curDir := EntryAt(i);
      if index == i {
        return 0, Some(Dentry(curDir, img[curDir + 32], img[curDir + 36]));
      }
      i := i + 1;
    }
    return -1, None;
  }

  // A listing entry: the name padded with NULs to 32 bytes.
  ghost function Padded(name: seq<byte>): (p: seq<byte>)
    requires |name| <= NAME
    ensures |p| == NAME
  {
    name + seq(NAME - |name|, _ => NUL)
  }

  // The kernel's strncpy of a stored name into a caller's buffer.
  method CopyName(img: Image, name: nat, buf: array<byte>, at: nat, n: nat)
    requires name + n < |img| && at + n <= buf.Length && n == NAME
    modifies buf
    ensures buf[..] == Splice(old(buf[..]), at, Padded(CStr(img[name..name + n])))
  {
    var i := 0;
    ghost var s, k := img[name..name + n], IndexOf(img[name..name + n], NUL);
    while img[name + i] != NUL && i < n
      invariant 0 <= i <= k
      invariant forall j {:trigger buf[j]} :: at <= j < at + i ==> buf[j] == s[j - at]
      invariant forall j {:trigger buf[j]} :: 0 <= j < at || at + i <= j < buf.Length ==> buf[j] == old(buf[j])
      decreases n - i
    {
      assert s[i] == img[name + i];
      buf[at + i] := img[name + i];
      i := i + 1;
    }
    assert i < n ==> s[i] == NUL;
    assert i == k;
    while i < n
      invariant k <= i <= n
      invariant forall j {:trigger buf[j]} :: at <= j < at + k ==> buf[j] == s[j - at]
      invariant forall j {:trigger buf[j]} :: at + k <= j < at + i ==> buf[j] == NUL
      invariant forall j {:trigger buf[j]} :: 0 <= j < at || at + i <= j < buf.Length ==> buf[j] == old(buf[j])
    {
      buf[at + i] := NUL;
      i := i + 1;
    }
    IsSplice(old(buf[..]), at, Padded(CStr(s)), buf[..]);
  }

  // Ending a listed name with a NUL after its 32 bytes, as ls and grep do, gives
  // the stored name back.
  lemma PaddedReadsBack(name: seq<byte>)
    requires |name| <= NAME && Without(name, NUL)
    ensures CStr(Padded(name) + [NUL]) == name
  {
    var p := Padded(name) + [NUL];
    assert forall j :: 0 <= j < |name| ==> p[j] == name[j];
    assert p[|name|] == NUL;
  }

  ghost predicate DistinctNames(img: Image)
    requires HasTables(img)
  {
    forall i, j :: 0 <= i < j < Entries(img) ==> NameOf(img, i) != NameOf(img, j)
  }

  // Looking up a listed name finds the first entry of that name: the listed
  // entry itself exactly when no earlier entry has the same name.
  lemma ListedNameIsFound(img: Image, i: nat)
    requires HasTables(img) && i < Entries(img)
    ensures var r := Lookup(img, NameOf(img, i), 0);
      && r.Some? && r.value <= i && NameOf(img, r.value) == NameOf(img, i)
      && (r.value == i <==> forall j :: 0 <= j < i ==> NameOf(img, j) != NameOf(img, i))
  {
  }
}
