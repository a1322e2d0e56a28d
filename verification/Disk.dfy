// A disk image put together from its parts, and what reading it gives back: the
// layout of student-distrib/filesystem.h, apart from the code that reads it.
module Disk {
  import opened CString
  import opened FileSystem
  import opened Descriptors

  const WORD := 0x1_0000_0000

  datatype Entry = Entry(name: seq<byte>, ftype: nat, inode: nat)

  // A file's length, and the numbers of the data blocks that it is made of.
  datatype Node = Node(length: nat, numbers: seq<nat>)

  datatype Parts = Parts(entries: seq<Entry>, nodes: seq<Node>, blocks: seq<seq<byte>>)

  ghost predicate Sound(d: Parts) {
    && |d.entries| <= 63 && |d.nodes| < WORD && |d.blocks| < WORD
    && (forall i :: 0 <= i < |d.entries| ==> SoundEntry(d.entries[i]))
    && (forall n :: 0 <= n < |d.nodes| ==> SoundNode(d, d.nodes[n]))
    && (forall j :: 0 <= j < |d.blocks| ==> |d.blocks[j]| == 4096)
  }

  ghost predicate SoundEntry(e: Entry) {
    |e.name| <= 32 && Without(e.name, NUL) && e.ftype < WORD && e.inode < WORD
  }

  ghost predicate SoundNode(d: Parts, node: Node) {
    && |node.numbers| <= 1023 && node.length <= 4096 * |node.numbers|
    && forall k :: 0 <= k < |node.numbers| ==> node.numbers[k] < |d.blocks|
  }

  // The bytes of a file: its blocks one behind the other, cut at its length.
  ghost function Glued(blocks: seq<seq<byte>>, numbers: seq<nat>): seq<byte>
    requires forall k :: 0 <= k < |numbers| ==> numbers[k] < |blocks|
  {
    if numbers == [] then [] else blocks[numbers[0]] + Glued(blocks, numbers[1..])
  }

  lemma {:induction false} GluedLength(blocks: seq<seq<byte>>, numbers: seq<nat>)
    requires forall k :: 0 <= k < |numbers| ==> numbers[k] < |blocks|
    requires forall j :: 0 <= j < |blocks| ==> |blocks[j]| == 4096
    ensures |Glued(blocks, numbers)| == 4096 * |numbers|
  {
    if numbers != [] { GluedLength(blocks, numbers[1..]); }
  }

  ghost function Bytes(d: Parts, n: nat): (s: seq<byte>)
    requires Sound(d) && n < |d.nodes|
    ensures |s| == d.nodes[n].length
  {
    assert SoundNode(d, d.nodes[n]);
    GluedLength(d.blocks, d.nodes[n].numbers);
    Glued(d.blocks, d.nodes[n].numbers)[..d.nodes[n].length]
  }

  // ---- The layout ----

  // The four bytes of a word, the lowest first.
  function LittleEndian(w: nat): (s: seq<byte>)
    requires w < WORD
    ensures |s| == 4
  {
    [w % 256, w / 256 % 256, w / 256 / 256 % 256, w / 256 / 256 / 256]
  }

  ghost predicate Laid(img: Image, d: Parts)
    requires Sound(d)
  {
    && |img| == 4096 * (1 + |d.nodes| + |d.blocks|)
    && img[0..4] == LittleEndian(|d.entries|) && img[4..8] == LittleEndian(|d.nodes|)
    && (forall i {:trigger d.entries[i]} :: 0 <= i < |d.entries| ==> LaidEntry(img, 64 + 64 * i, d.entries[i]))
    && (forall n {:trigger d.nodes[n]} :: 0 <= n < |d.nodes| ==> LaidNode(img, 4096 * (1 + n), d, d.nodes[n]))
    && (forall j {:trigger d.blocks[j]} :: 0 <= j < |d.blocks| ==>
          LaidBlock(img, 4096 * (1 + |d.nodes| + j), d.blocks[j]))
  }

  ghost predicate LaidEntry(img: Image, at: nat, e: Entry)
    requires SoundEntry(e)
  {
    && at + 64 <= |img|
    && img[at..at + |e.name|] == e.name && (forall a :: at + |e.name| <= a < at + 32 ==> img[a] == NUL)
    && img[at + 32..at + 36] == LittleEndian(e.ftype) && img[at + 36..at + 40] == LittleEndian(e.inode)
  }

  ghost predicate LaidNode(img: Image, at: nat, d: Parts, node: Node)
    requires SoundNode(d, node) && |d.blocks| < WORD
  {
    && at + 4096 <= |img| && node.length < WORD && img[at..at + 4] == LittleEndian(node.length)
    && forall k {:trigger node.numbers[k]} :: 0 <= k < |node.numbers| ==>
         img[at + 4 + 4 * k..at + 8 + 4 * k] == LittleEndian(node.numbers[k])
  }

  ghost predicate LaidBlock(img: Image, at: nat, block: seq<byte>) {
    at + 4096 <= |img| && img[at..at + 4096] == block
  }

  // ---- Such an image exists for any parts ----

  ghost function EntryByte(e: Entry, o: nat): byte
    requires SoundEntry(e)
  {
    if o < |e.name| then e.name[o]
    else if 32 <= o < 36 then LittleEndian(e.ftype)[o - 32]
    else if 36 <= o < 40 then LittleEndian(e.inode)[o - 36]
    else 0
  }

  ghost function BootByte(d: Parts, a: nat): byte
    requires Sound(d)
  {
    if a < 4 then LittleEndian(|d.entries|)[a]
    else if a < 8 then LittleEndian(|d.nodes|)[a - 4]
    else if a < 12 then LittleEndian(|d.blocks|)[a - 8]
    else if a < 64 || a / 64 - 1 >= |d.entries| then 0
    else EntryByte(d.entries[a / 64 - 1], a % 64)
  }

  ghost function NodeByte(d: Parts, node: Node, o: nat): byte
    requires SoundNode(d, node) && |d.blocks| < WORD
  {
    if o < 4 then LittleEndian(node.length)[o]
    else if o / 4 - 1 < |node.numbers| then LittleEndian(node.numbers[o / 4 - 1])[o % 4]
    else 0
  }

  ghost function ByteAt(d: Parts, a: nat): byte
    requires Sound(d) && a < 4096 * (1 + |d.nodes| + |d.blocks|)
  {
    if a < 4096 then BootByte(d, a)
    else if a / 4096 - 1 < |d.nodes| then NodeByte(d, d.nodes[a / 4096 - 1], a % 4096)
    else d.blocks[a / 4096 - 1 - |d.nodes|][a % 4096]
  }

  ghost function Built(d: Parts): (img: Image)
    requires Sound(d)
    ensures |img| == 4096 * (1 + |d.nodes| + |d.blocks|)
  {
    seq(4096 * (1 + |d.nodes| + |d.blocks|), a requires 0 <= a < 4096 * (1 + |d.nodes| + |d.blocks|) => ByteAt(d, a))
  }

  lemma Divides(q: nat, m: nat, o: nat)
    requires m == 4 || m == 64 || m == 4096
    requires o < m
    ensures (m * q + o) / m == q && (m * q + o) % m == o
  {
  }

  lemma EntryBytes(d: Parts, i: nat, o: nat)
    requires Sound(d) && i < |d.entries| && o < 64
    ensures 64 + 64 * i + o < |Built(d)| && SoundEntry(d.entries[i])
    ensures Built(d)[64 + 64 * i + o] == EntryByte(d.entries[i], o)
  {
    hide LittleEndian, EntryByte, SoundEntry, SoundNode;
    Divides(i + 1, 64, o);
  }

  lemma EntryIsLaid(img: Image, at: nat, e: Entry)
    requires SoundEntry(e) && at + 64 <= |img|
    requires forall o {:trigger EntryByte(e, o)} :: 0 <= o < 64 ==> img[at + o] == EntryByte(e, o)
    ensures LaidEntry(img, at, e)
  {
    hide LittleEndian;
    var name, ftype, inode := img[at..at + |e.name|], img[at + 32..at + 36], img[at + 36..at + 40];
    forall o | 0 <= o < |e.name| ensures name[o] == e.name[o] {
      assert name[o] == img[at + o] == EntryByte(e, o);
    }
    forall a | at + |e.name| <= a < at + 32 ensures img[a] == NUL {
      assert img[at + (a - at)] == EntryByte(e, a - at);
    }
    forall o | 0 <= o < 4 ensures ftype[o] == LittleEndian(e.ftype)[o] && inode[o] == LittleEndian(e.inode)[o] {
      assert ftype[o] == img[at + (32 + o)] == EntryByte(e, 32 + o);
      assert inode[o] == img[at + (36 + o)] == EntryByte(e, 36 + o);
    }
  }

  lemma BuiltEntry(d: Parts, i: nat)
    requires Sound(d) && i < |d.entries|
    ensures SoundEntry(d.entries[i]) && LaidEntry(Built(d), 64 + 64 * i, d.entries[i])
  {
    hide EntryByte, Built, Sound, SoundEntry, LaidEntry;
    forall o {:trigger EntryByte(d.entries[i], o)} | 0 <= o < 64
      ensures 64 + 64 * i + 64 <= |Built(d)| && SoundEntry(d.entries[i])
      ensures Built(d)[64 + 64 * i + o] == EntryByte(d.entries[i], o)
    {
      EntryBytes(d, i, 63);
      EntryBytes(d, i, o);
    }
    EntryBytes(d, i, 63);
    EntryIsLaid(Built(d), 64 + 64 * i, d.entries[i]);
  }

  lemma NodeBytes(d: Parts, n: nat, o: nat)
    requires Sound(d) && n < |d.nodes| && o < 4096
    ensures 4096 * (1 + n) + o < |Built(d)| && SoundNode(d, d.nodes[n])
    ensures Built(d)[4096 * (1 + n) + o] == NodeByte(d, d.nodes[n], o)
  {
    hide LittleEndian, NodeByte, SoundEntry, SoundNode;
    Divides(n + 1, 4096, o);
  }

  lemma NodeIsLaid(img: Image, at: nat, d: Parts, node: Node)
    requires SoundNode(d, node) && |d.blocks| < WORD && node.length < WORD && at + 4096 <= |img|
    requires forall o {:trigger NodeByte(d, node, o)} :: 0 <= o < 4096 ==> img[at + o] == NodeByte(d, node, o)
    ensures LaidNode(img, at, d, node)
  {
    hide LittleEndian;
    assert forall o :: 0 <= o < 4 ==> img[at + o] == LittleEndian(node.length)[o] by {
      assert forall o :: 0 <= o < 4 ==> NodeByte(d, node, o) == LittleEndian(node.length)[o];
    }
    forall k {:trigger node.numbers[k]} | 0 <= k < |node.numbers|
      ensures img[at + 4 + 4 * k..at + 8 + 4 * k] == LittleEndian(node.numbers[k])
    {
      NumberIsLaid(img, at, d, node, k);
    }
  }

  lemma NumberIsLaid(img: Image, at: nat, d: Parts, node: Node, k: nat)
    requires SoundNode(d, node) && |d.blocks| < WORD && at + 4096 <= |img| && k < |node.numbers|
    requires forall o {:trigger NodeByte(d, node, o)} :: 0 <= o < 4096 ==> img[at + o] == NodeByte(d, node, o)
    ensures img[at + 4 + 4 * k..at + 8 + 4 * k] == LittleEndian(node.numbers[k])
  {
    hide LittleEndian;
    var w := img[at + 4 + 4 * k..at + 8 + 4 * k];
    forall o | 0 <= o < 4 ensures w[o] == LittleEndian(node.numbers[k])[o] {
      Divides(k + 1, 4, o);
      assert w[o] == img[at + (4 * (k + 1) + o)] == NodeByte(d, node, 4 * (k + 1) + o);
    }
  }

  lemma BuiltNode(d: Parts, n: nat)
    requires Sound(d) && n < |d.nodes|
    ensures SoundNode(d, d.nodes[n]) && LaidNode(Built(d), 4096 * (1 + n), d, d.nodes[n])
  {
    assert |d.blocks| < WORD && SoundNode(d, d.nodes[n]) && d.nodes[n].length < WORD;
    hide NodeByte, Built, Sound, SoundNode, LaidNode;
    forall o {:trigger NodeByte(d, d.nodes[n], o)} | 0 <= o < 4096
      ensures 4096 * (1 + n) + 4096 <= |Built(d)|
      ensures Built(d)[4096 * (1 + n) + o] == NodeByte(d, d.nodes[n], o)
    {
      NodeBytes(d, n, 4095);
      NodeBytes(d, n, o);
    }
    NodeBytes(d, n, 4095);
    NodeIsLaid(Built(d), 4096 * (1 + n), d, d.nodes[n]);
  }

  lemma BuiltBlock(d: Parts, j: nat)
    requires Sound(d) && j < |d.blocks|
    ensures LaidBlock(Built(d), 4096 * (1 + |d.nodes| + j), d.blocks[j])
  {
    var img, at := Built(d), 4096 * (1 + |d.nodes| + j);
    forall o | 0 <= o < 4096 ensures img[at + o] == d.blocks[j][o] {
      Divides(1 + |d.nodes| + j, 4096, o);
    }
  }

  lemma BuiltIsLaid(d: Parts)
    requires Sound(d)
    ensures Laid(Built(d), d)
  {
    hide LaidEntry, LaidNode, LaidBlock;
    forall i {:trigger d.entries[i]} | 0 <= i < |d.entries|
      ensures LaidEntry(Built(d), 64 + 64 * i, d.entries[i])
    {
      BuiltEntry(d, i);
    }
    forall n {:trigger d.nodes[n]} | 0 <= n < |d.nodes|
      ensures LaidNode(Built(d), 4096 * (1 + n), d, d.nodes[n])
    {
      BuiltNode(d, n);
    }
    forall j {:trigger d.blocks[j]} | 0 <= j < |d.blocks|
      ensures LaidBlock(Built(d), 4096 * (1 + |d.nodes| + j), d.blocks[j])
    {
      BuiltBlock(d, j);
    }
  }

  // ---- Reading ----

  lemma WordReads(img: Image, at: nat, w: nat)
    requires at + 4 <= |img| && w < WORD && img[at..at + 4] == LittleEndian(w)
    ensures Word(img, at) == w
  {
    var s := img[at..at + 4];
    assert s[0] == img[at] && s[1] == img[at + 1] && s[2] == img[at + 2] && s[3] == img[at + 3];
  }

  lemma LaidCounts(img: Image, d: Parts)
    requires Sound(d) && Laid(img, d)
    ensures HasTables(img) && Entries(img) == |d.entries| && Inodes(img) == |d.nodes|
  {
    hide Word, LittleEndian;
    WordReads(img, 0, |d.entries|);
    WordReads(img, 4, |d.nodes|);
  }

  lemma LaidInode(img: Image, d: Parts, n: nat)
    requires Sound(d) && Laid(img, d) && n < |d.nodes|
    ensures InodeIn(img, n) && n <= Inodes(img) && Size(img, n) == d.nodes[n].length
    ensures forall k {:trigger d.nodes[n].numbers[k]} :: 0 <= k < |d.nodes[n].numbers| ==>
      BlockAt(img, n, k) == 4096 * (1 + |d.nodes| + d.nodes[n].numbers[k])
  {
    hide Word, LittleEndian;
    LaidCounts(img, d);
    var node, at := d.nodes[n], 4096 * (1 + n);
    assert SoundNode(d, node) && LaidNode(img, at, d, node);
    WordReads(img, at, node.length);
    forall k {:trigger node.numbers[k]} | 0 <= k < |node.numbers|
      ensures BlockAt(img, n, k) == 4096 * (1 + |d.nodes| + node.numbers[k])
    {
      WordReads(img, at + 4 + 4 * k, node.numbers[k]);
    }
  }

  lemma LaidIsValid(img: Image, d: Parts, n: nat)
    requires Sound(d) && Laid(img, d) && n < |d.nodes|
    ensures ValidInode(img, n) && BlockCount(Size(img, n)) <= |d.nodes[n].numbers|
  {
    LaidInode(img, d, n);
    assert SoundNode(d, d.nodes[n]);
    hide Laid, Word, Size, BlockAt;
    var numbers := d.nodes[n].numbers;
    forall k | 0 <= k < BlockCount(Size(img, n)) ensures BlockAt(img, n, k) + BLOCK <= |img| {
      assert numbers[k] < |d.blocks|;
    }
  }

  lemma {:induction false} GluedMore(blocks: seq<seq<byte>>, a: seq<nat>, b: nat)
    requires b < |blocks| && forall k :: 0 <= k < |a| ==> a[k] < |blocks|
    ensures Glued(blocks, a + [b]) == Glued(blocks, a) + blocks[b]
  {
    if a == [] {
      assert [b][1..] == [] && a + [b] == [b];
    } else {
      assert (a + [b])[1..] == a[1..] + [b];
      GluedMore(blocks, a[1..], b);
    }
  }

  lemma BlockIsLaid(img: Image, d: Parts, n: nat, k: nat)
    requires Sound(d) && Laid(img, d) && n < |d.nodes| && k < |d.nodes[n].numbers|
    ensures InodeIn(img, n) && |d.nodes[n].numbers| <= 1023 && d.nodes[n].numbers[k] < |d.blocks|
    ensures BlockAt(img, n, k) + BLOCK <= |img|
    ensures img[BlockAt(img, n, k)..BlockAt(img, n, k) + BLOCK] == d.blocks[d.nodes[n].numbers[k]]
  {
    hide BlockAt, Word, Size;
    LaidInode(img, d, n);
    assert SoundNode(d, d.nodes[n]);
    var b := d.nodes[n].numbers[k];
    assert LaidBlock(img, 4096 * (1 + |d.nodes| + b), d.blocks[b]);
  }

  // The numbers in front lead to blocks.
  ghost predicate Lead(d: Parts, numbers: seq<nat>) {
    forall k :: 0 <= k < |numbers| ==> numbers[k] < |d.blocks|
  }

  lemma {:induction false} BlocksAreGlued(img: Image, d: Parts, n: nat, k: nat)
    requires Sound(d) && Laid(img, d) && n < |d.nodes| && ValidInode(img, n)
    requires k <= BlockCount(Size(img, n)) && k <= |d.nodes[n].numbers|
    ensures Lead(d, d.nodes[n].numbers[..k]) && Blocks(img, n, k) == Glued(d.blocks, d.nodes[n].numbers[..k])
  {
    hide *;
    var numbers := d.nodes[n].numbers;
    if k > 0 {
      BlocksAreGlued(img, d, n, k - 1);
      BlockIsLaid(img, d, n, k - 1);
      OneMoreBlock(img, d, n, numbers, k);
    } else {
      NoBlocks(img, d, n, numbers);
    }
  }

  lemma NoBlocks(img: Image, d: Parts, n: nat, numbers: seq<nat>)
    requires ValidInode(img, n)
    ensures Lead(d, numbers[..0]) && Blocks(img, n, 0) == Glued(d.blocks, numbers[..0])
  {
  }

  lemma OneMoreBlock(img: Image, d: Parts, n: nat, numbers: seq<nat>, k: nat)
    requires ValidInode(img, n) && 0 < k <= BlockCount(Size(img, n)) && k <= |numbers|
    requires Lead(d, numbers[..k - 1]) && Blocks(img, n, k - 1) == Glued(d.blocks, numbers[..k - 1])
    requires numbers[k - 1] < |d.blocks|
    requires BlockAt(img, n, k - 1) + BLOCK <= |img|
    requires img[BlockAt(img, n, k - 1)..BlockAt(img, n, k - 1) + BLOCK] == d.blocks[numbers[k - 1]]
    ensures Lead(d, numbers[..k]) && Blocks(img, n, k) == Glued(d.blocks, numbers[..k])
  {
    hide BlockAt, Size, ValidInode, Glued;
    var b := numbers[k - 1];
    assert numbers[..k] == numbers[..k - 1] + [b];
    GluedMore(d.blocks, numbers[..k - 1], b);
  }

  lemma {:induction false} GluedFront(blocks: seq<seq<byte>>, a: seq<nat>, k: nat)
    requires k <= |a| && forall i :: 0 <= i < |a| ==> a[i] < |blocks|
    requires forall j :: 0 <= j < |blocks| ==> |blocks[j]| == 4096
    ensures Glued(blocks, a[..k]) <= Glued(blocks, a)
    decreases |a| - k
  {
    if k < |a| {
      assert a[..k + 1] == a[..k] + [a[k]];
      GluedMore(blocks, a[..k], a[k]);
      GluedFront(blocks, a, k + 1);
    } else {
      assert a[..k] == a;
    }
  }

  // A file's content on such an image is its blocks, glued and cut.
  lemma ContentIsBytes(img: Image, d: Parts, n: nat)
    requires Sound(d) && Laid(img, d) && n < |d.nodes|
    ensures ValidInode(img, n) && Content(img, n) == Bytes(d, n)
  {
    LaidIsValid(img, d, n);
    LaidInode(img, d, n);
    var k, numbers := BlockCount(Size(img, n)), d.nodes[n].numbers;
    assert SoundNode(d, d.nodes[n]);
    BlocksAreGlued(img, d, n, k);
    hide Laid, ValidInode;
    GluedFront(d.blocks, numbers, k);
  }

  lemma SpliceMeans(before: seq<byte>, at: nat, c: seq<byte>, after: seq<byte>)
    requires at + |c| <= |before| && after == Splice(before, at, c)
    ensures |after| == |before|
    ensures forall k {:trigger after[k]} :: at <= k < at + |c| ==> after[k] == c[k - at]
    ensures forall k {:trigger after[k]} :: 0 <= k < at || at + |c| <= k < |after| ==> after[k] == before[k]
  {
  }

  // read_data, on an image of known parts.
  method ReadFile(img: Image, ghost d: Parts, n: nat, offset: nat, buf: array<byte>, at: nat, length: nat)
    returns (r: int)
    requires Sound(d) && Laid(img, d) && n < |d.nodes| && at + length <= buf.Length
    modifies buf
    ensures r == if offset >= d.nodes[n].length then 0
                 else if d.nodes[n].length - offset < length then d.nodes[n].length - offset
                 else length
    ensures forall k {:trigger buf[k]} :: at <= k < at + r ==> buf[k] == Bytes(d, n)[offset + (k - at)]
    ensures forall k {:trigger buf[k]} :: 0 <= k < at || at + r <= k < buf.Length ==> buf[k] == old(buf[k])
  {
    LaidCounts(img, d);
    ContentIsBytes(img, d, n);
    hide Laid, ValidInode, Content, Bytes, HasTables, Splice, Sound;
    ghost var was := buf[..];
    r := ReadData(img, n, offset, buf, at, length);
    SpliceMeans(was, at, Chunk(Content(img, n), offset, length), buf[..]);
    assert forall k {:trigger buf[k]} :: 0 <= k < buf.Length ==> buf[k] == buf[..][k];
  }

  // ---- The directory, and files by name ----

  // The entry i is the first of its name.
  ghost predicate FirstOfName(d: Parts, i: nat) {
    i < |d.entries| && forall j :: 0 <= j < i ==> d.entries[j].name != d.entries[i].name
  }

  lemma LaidEntryReads(img: Image, d: Parts, i: nat)
    requires Sound(d) && Laid(img, d) && i < |d.entries|
    ensures HasTables(img) && Entries(img) == |d.entries| && NameOf(img, i) == d.entries[i].name
    ensures EntryOf(img, i) == Dentry(64 + 64 * i, d.entries[i].ftype % 256, d.entries[i].inode % 256)
  {
    LaidCounts(img, d);
    var e, at := d.entries[i], 64 + 64 * i;
    assert SoundEntry(e) && LaidEntry(img, at, e);
    hide Laid, Sound, HasTables, Word, Entries, CStr;
    var t, n, field := img[at + 32..at + 36], img[at + 36..at + 40], img[at..at + 32];
    assert t[0] == img[at + 32] && n[0] == img[at + 36];
    NameIs(field, e.name) by {
      assert field[..|e.name|] == img[at..at + |e.name|];
    }
  }

  lemma NameIs(field: seq<byte>, name: seq<byte>)
    requires |name| <= |field| == 32 && field[..|name|] == name && Without(name, NUL)
    requires forall a :: |name| <= a < 32 ==> field[a] == NUL
    ensures CStr(field) == name
  {
    forall a {:trigger field[a]} | 0 <= a < |name| ensures field[a] != NUL {
      assert field[a] == field[..|name|][a] == name[a];
    }
    assert |name| < 32 ==> field[|name|] == NUL;
    assert IndexOf(field, NUL) == |name|;
  }

  lemma FirstIsFound(img: Image, d: Parts, i: nat)
    requires Sound(d) && Laid(img, d) && FirstOfName(d, i)
    ensures HasTables(img) && Lookup(img, d.entries[i].name, 0) == Some(i)
  {
    LaidEntryReads(img, d, i);
    hide NameOf, EntryOf, Laid, Sound, Lookup;
    ListedNameIsFound(img, i);
    forall j | 0 <= j < i ensures NameOf(img, j) != NameOf(img, i) {
      LaidEntryReads(img, d, j);
    }
  }

  // What the first read of n bytes hands over: the file of a type 2 entry's own inode,
  // the first name of the directory, nothing of the clock; other types read inode 0.
  ghost function FirstBytes(d: Parts, e: Entry, n: nat): seq<byte>
    requires Sound(d) && Opens(d, e)
  {
    var t := e.ftype % 256;
    if t == 0 then []
    else if t == 1 then d.entries[0].name + seq(32 - |d.entries[0].name|, _ => NUL)
    else
      var file := Bytes(d, if t == 2 then e.inode % 256 else 0);
      if |file| < n then file else file[..n]
  }

  ghost predicate Opens(d: Parts, e: Entry) {
    var t := e.ftype % 256;
    && (t == 1 ==> d.entries != [] && SoundEntry(d.entries[0]))
    && (t == 2 ==> e.inode % 256 < |d.nodes|) && (t > 2 ==> d.nodes != [])
  }

  lemma FirstReadGives(img: Image, d: Parts, i: nat, n: nat)
    requires Sound(d) && Laid(img, d) && i < |d.entries| && Opens(d, d.entries[i])
    ensures HasTables(img) && i < Entries(img)
    ensures var f := Opened(EntryOf(img, i));
      && f.inode < 256 && f.flags && f.ops in {Rtc, Dir, File} && (f.ops == File ==> ValidInode(img, f.inode))
      && ReadChunk(img, f, n) == FirstBytes(d, d.entries[i], n)
  {
    LaidEntryReads(img, d, i);
    var e := d.entries[i];
    var t := e.ftype % 256;
    if t == 1 { LaidEntryReads(img, d, 0); }
    if t >= 2 { ContentIsBytes(img, d, if t == 2 then e.inode % 256 else 0); }
    hide Laid, Sound, EntryOf, NameOf, Content, Bytes, ValidInode, HasTables, Entries;
  }

  // open by the name of an entry that is the first of its name.
  method OpenEntry(k: Files, ghost d: Parts, ghost i: nat, name: seq<byte>) returns (fd: int)
    requires k.Started() && Sound(d) && Laid(k.img, d) && FirstOfName(d, i) && name == d.entries[i].name
    requires Opens(d, d.entries[i])
    modifies k`dt, k.fd
    ensures k.Started() && LowestFree(old(k.Table()), fd) && i < Entries(k.img)
    ensures k.Table() == if fd == -1 then old(k.Table()) else old(k.Table())[fd := Opened(EntryOf(k.img, i))]
  {
    FirstIsFound(k.img, d, i);
    FirstReadGives(k.img, d, i, 0);
    assert SoundEntry(d.entries[i]);
    hide Laid, Sound, EntryOf, Lookup, FirstBytes, ReadChunk, Opened, ValidInode, HasTables, Word, NameOf, OpenIn;
    fd := k.Open(name);
  }

  // open and the first read, on an image of known parts.
  method OpenAndRead(k: Files, ghost d: Parts, ghost i: nat, name: seq<byte>, buf: array<byte>, n: nat)
    returns (fd: int, cnt: int)
    requires k.Started() && Sound(d) && Laid(k.img, d) && FirstOfName(d, i) && name == d.entries[i].name
    requires Opens(d, d.entries[i]) && n <= buf.Length && 32 <= buf.Length
    modifies k`dt, k.fd, buf
    ensures k.Started() && LowestFree(old(k.Table()), fd)
    ensures fd == -1 ==> cnt == -1 && k.Table() == old(k.Table()) && buf[..] == old(buf[..])
    ensures fd != -1 ==> k.Table() - {fd} == old(k.Table())
    ensures fd != -1 ==> cnt == |FirstBytes(d, d.entries[i], n)| <= buf.Length
    ensures fd != -1 ==> buf[..cnt] == FirstBytes(d, d.entries[i], n) && buf[cnt..] == old(buf[cnt..])
  {
    FirstReadGives(k.img, d, i, n);
    hide Laid, Sound, EntryOf, FirstBytes, ReadChunk, Opened, Splice, ValidInode, HasTables, Advanced, Word;
    hide Files.Valid, OpenIn, FirstOfName, Opens, LowestFree;
    fd := OpenEntry(k, d, i, name);
    if fd == -1 { return fd, -1; }
    assert k.Table() - {fd} == old(k.Table());
    cnt := ReadFirst(k, fd, buf, n);
  }

  lemma ChunkFits(img: Image, f: FileDesc, n: nat)
    requires HasTables(img) && f.inode < 256
    ensures |ReadChunk(img, f, n)| <= n || |ReadChunk(img, f, n)| <= 32
  {
    hide FileAt, Padded;
  }

  method ReadFirst(k: Files, fd: nat, buf: array<byte>, n: nat) returns (cnt: int)
    requires k.Started() && fd in k.Table() && 2 <= fd && n <= buf.Length && 32 <= buf.Length
    modifies k.fd, buf
    ensures k.Started() && k.Table() - {fd} == old(k.Table()) - {fd}
    ensures var c := ReadChunk(k.img, old(k.Table())[fd], n);
      cnt == |c| <= buf.Length && buf[..cnt] == c && buf[cnt..] == old(buf[cnt..])
  {
    ghost var was, f := buf[..], k.Table()[fd];
    assert f.inode < 256 && HasTables(k.img);
    ChunkFits(k.img, f, n);
    hide ReadChunk, Splice, ValidInode, HasTables, Advanced, WellFormed;
    cnt := k.Read(fd, buf, 0, n);
    SpliceMeans(was, 0, ReadChunk(k.img, f, n), buf[..]);
    assert buf[cnt..] == old(buf[cnt..]);
  }
}
