// The kernel's assembly memory routines (student-distrib/lib.c): memcpy and
// memset align the destination, then move dwords, then the tail; memmove picks a
// direction.  Memory is one array of bytes, addresses are its indices.
module Memory {
  import opened CString

  // ---- The simple forms ----

  // A byte-by-byte copy upwards.
  ghost function ByteCopy(m: seq<byte>, dest: nat, src: nat, n: nat): (r: seq<byte>)
    requires dest + n <= |m| && src + n <= |m|
    ensures |r| == |m|
    decreases n
  {
    if n == 0 then m else ByteCopy(m[dest := m[src]], dest + 1, src + 1, n - 1)
  }

  // All bytes at once, as if through a temporary.
  ghost function AtOnce(m: seq<byte>, dest: nat, src: nat, n: nat): (r: seq<byte>)
    requires dest + n <= |m| && src + n <= |m|
    ensures |r| == |m|
  {
    Splice(m, dest, m[src..src + n])
  }

  // ---- The fast form ----

  // What memcpy does: one dword at an aligned destination with four bytes to go,
  // otherwise one byte.
  ghost function FastCopy(m: seq<byte>, dest: nat, src: nat, n: nat): (r: seq<byte>)
    requires dest + n <= |m| && src + n <= |m|
    ensures |r| == |m|
    decreases n
  {
    if n == 0 then m
    else if dest % 4 == 0 && n >= 4 then FastCopy(AtOnce(m, dest, src, 4), dest + 4, src + 4, n - 4)
    else FastCopy(m[dest := m[src]], dest + 1, src + 1, n - 1)
  }

  lemma FastStep(m: seq<byte>, dest: nat, src: nat, n: nat)
    requires dest + n <= |m| && src + n <= |m| && n > 0
    ensures FastCopy(m, dest, src, n) ==
      if dest % 4 == 0 && n >= 4 then FastCopy(AtOnce(m, dest, src, 4), dest + 4, src + 4, n - 4)
      else FastCopy(m[dest := m[src]], dest + 1, src + 1, n - 1)
  {
  }

  lemma NothingToCopy(m: seq<byte>, dest: nat, src: nat)
    requires dest <= |m| && src <= |m|
    ensures FastCopy(m, dest, src, 0) == m
  {
  }

  method Memcpy(mem: array<byte>, dest: nat, src: nat, n: nat)
    requires dest + n <= mem.Length && src + n <= mem.Length
    modifies mem
    ensures mem[..] == FastCopy(old(mem[..]), dest, src, n)
  {
    hide FastCopy, AtOnce;
    ghost var goal := FastCopy(mem[..], dest, src, n);
    var edi: nat, esi: nat, ecx: nat := dest, src, n;
    while ecx != 0 && edi % 4 != 0
      invariant edi + ecx == dest + n && esi + ecx == src + n
      invariant FastCopy(mem[..], edi, esi, ecx) == goal
      decreases ecx
    {
      FastStep(mem[..], edi, esi, ecx);
      MoveByte(mem, edi, esi);
      edi, esi, ecx := edi + 1, esi + 1, ecx - 1;
    }
    if ecx == 0 {
      NothingToCopy(mem[..], edi, esi);
      return;
    }
    var edx := ecx % 4;
    ecx := ecx / 4;
    MoveDwords(mem, edi, esi, ecx, edx);
    MoveTail(mem, edi + 4 * ecx, esi + 4 * ecx, edx);
  }

  // rep movsl, with `tail` bytes still to come.
  method MoveDwords(mem: array<byte>, dest: nat, src: nat, count: nat, ghost tail: nat)
    requires dest + 4 * count + tail <= mem.Length && src + 4 * count + tail <= mem.Length
    requires dest % 4 == 0
    modifies mem
    ensures FastCopy(mem[..], dest + 4 * count, src + 4 * count, tail) ==
            FastCopy(old(mem[..]), dest, src, 4 * count + tail)
  {
    hide FastCopy, AtOnce;
    var i := 0;
    while i < count
      invariant 0 <= i <= count
      invariant FastCopy(mem[..], dest + 4 * i, src + 4 * i, 4 * (count - i) + tail) ==
                FastCopy(old(mem[..]), dest, src, 4 * count + tail)
    {
      FastStep(mem[..], dest + 4 * i, src + 4 * i, 4 * (count - i) + tail);
      MoveDword(mem, dest + 4 * i, src + 4 * i);
      i := i + 1;
    }
  }

  method MoveTail(mem: array<byte>, dest: nat, src: nat, count: nat)
    requires dest + count <= mem.Length && src + count <= mem.Length && count < 4
    modifies mem
    ensures mem[..] == FastCopy(old(mem[..]), dest, src, count)
  {
    hide FastCopy, AtOnce;
    var i := 0;
    while i < count
      invariant 0 <= i <= count
      invariant FastCopy(mem[..], dest + i, src + i, count - i) == FastCopy(old(mem[..]), dest, src, count)
    {
      FastStep(mem[..], dest + i, src + i, count - i);
      MoveByte(mem, dest + i, src + i);
      i := i + 1;
    }
    NothingToCopy(mem[..], dest + i, src + i);
  }

  method MoveByte(mem: array<byte>, edi: nat, esi: nat)
    requires edi < mem.Length && esi < mem.Length
    modifies mem
    ensures mem[..] == old(mem[..])[edi := old(mem[esi])]
  {
    mem[edi] := mem[esi];
  }

  // movsl reads its four bytes before it writes them.
  method MoveDword(mem: array<byte>, edi: nat, esi: nat)
    requires edi + 4 <= mem.Length && esi + 4 <= mem.Length
    modifies mem
    ensures mem[..] == AtOnce(old(mem[..]), edi, esi, 4)
  {
    var b0, b1, b2, b3 := mem[esi], mem[esi + 1], mem[esi + 2], mem[esi + 3];
    mem[edi], mem[edi + 1], mem[edi + 2], mem[edi + 3] := b0, b1, b2, b3;
    IsSplice(old(mem[..]), edi, old(mem[esi..esi + 4]), mem[..]);
  }

  // ---- When the fast form is the simple one ----

  // The number of single bytes before the first aligned destination.
  function Head(dest: nat): nat { if dest % 4 == 0 then 0 else 4 - dest % 4 }

  // The destination starts inside the source's first dword and at least one
  // dword is moved.
  predicate Collides(dest: nat, src: nat, n: nat) {
    src < dest < src + 4 && n >= Head(dest) + 4
  }

  lemma DwordIsFourBytes(m: seq<byte>, dest: nat, src: nat)
    requires dest + 4 <= |m| && src + 4 <= |m| && (dest <= src || src + 4 <= dest)
    ensures AtOnce(m, dest, src, 4) == ByteCopy(m, dest, src, 4)
  {
    var m1 := m[dest := m[src]];
    var m2 := m1[dest + 1 := m1[src + 1]];
    var m3 := m2[dest + 2 := m2[src + 2]];
    var m4 := m3[dest + 3 := m3[src + 3]];
    assert ByteCopy(m, dest, src, 4) == ByteCopy(m1, dest + 1, src + 1, 3)
      == ByteCopy(m2, dest + 2, src + 2, 2) == ByteCopy(m3, dest + 3, src + 3, 1) == m4;
    var r := AtOnce(m, dest, src, 4);
    forall a | 0 <= a < |m| ensures r[a] == m4[a] {
      assert m4[a] == if dest <= a < dest + 4 then m[src + (a - dest)] else m[a];
    }
    assert r == m4;
  }

  lemma {:induction false} ByteCopySplits(m: seq<byte>, dest: nat, src: nat, k: nat, n: nat)
    requires k <= n && dest + n <= |m| && src + n <= |m|
    ensures ByteCopy(m, dest, src, n) == ByteCopy(ByteCopy(m, dest, src, k), dest + k, src + k, n - k)
    decreases k
  {
    if k > 0 {
      ByteCopySplits(m[dest := m[src]], dest + 1, src + 1, k - 1, n - 1);
    }
  }

  lemma {:induction false} FastIsByteCopy(m: seq<byte>, dest: nat, src: nat, n: nat)
    requires dest + n <= |m| && src + n <= |m| && !Collides(dest, src, n)
    ensures FastCopy(m, dest, src, n) == ByteCopy(m, dest, src, n)
    decreases n
  {
    hide AtOnce;
    if n == 0 {
    } else if dest % 4 == 0 && n >= 4 {
      DwordIsFourBytes(m, dest, src);
      ByteCopySplits(m, dest, src, 4, n);
      FastIsByteCopy(AtOnce(m, dest, src, 4), dest + 4, src + 4, n - 4);
    } else {
      FastIsByteCopy(m[dest := m[src]], dest + 1, src + 1, n - 1);
    }
  }

  // Neither form touches what lies below the destination.
  lemma {:induction false} ByteCopyKeepsBelow(m: seq<byte>, dest: nat, src: nat, n: nat, a: nat)
    requires dest + n <= |m| && src + n <= |m| && a < dest
    ensures ByteCopy(m, dest, src, n)[a] == m[a]
    decreases n
  {
    if n > 0 { ByteCopyKeepsBelow(m[dest := m[src]], dest + 1, src + 1, n - 1, a); }
  }

  lemma AtOnceKeepsOutside(m: seq<byte>, dest: nat, src: nat, n: nat, a: nat)
    requires dest + n <= |m| && src + n <= |m| && a < |m| && (a < dest || dest + n <= a)
    ensures AtOnce(m, dest, src, n)[a] == m[a]
  {
  }

  // Nothing below or above the destination region changes.
  lemma {:induction false} FastCopyKeepsOutside(m: seq<byte>, dest: nat, src: nat, n: nat, a: nat)
    requires dest + n <= |m| && src + n <= |m| && a < |m| && (a < dest || dest + n <= a)
    ensures FastCopy(m, dest, src, n)[a] == m[a]
    decreases n
  {
    hide AtOnce, FastCopy;
    if n == 0 {
      NothingToCopy(m, dest, src);
    } else {
      FastStep(m, dest, src, n);
      if dest % 4 == 0 && n >= 4 {
        AtOnceKeepsOutside(m, dest, src, 4, a);
        FastCopyKeepsOutside(AtOnce(m, dest, src, 4), dest + 4, src + 4, n - 4, a);
      } else {
        FastCopyKeepsOutside(m[dest := m[src]], dest + 1, src + 1, n - 1, a);
      }
    }
  }

  // i wrapped around a distance d.
  ghost function Wrap(i: nat, d: nat): (r: nat)
    requires d > 0
    ensures r < d && r <= i
  {
    if i < d then i else Wrap(i - d, d)
  }

  lemma {:induction false} NextWrap(i: nat, d: nat)
    requires d > 0
    ensures Wrap(i + 1, d) == if Wrap(i, d) == d - 1 then 0 else Wrap(i, d) + 1
  {
    if i >= d { NextWrap(i - d, d); }
  }

  // An upward byte copy into its own source repeats the bytes in between.
  lemma {:induction false} OverlappingByteCopyRepeats(m: seq<byte>, dest: nat, src: nat, n: nat, i: nat)
    requires dest + n <= |m| && src < dest && i < n
    ensures ByteCopy(m, dest, src, n)[dest + i] == m[src + Wrap(i, dest - src)]
    decreases n
  {
    var m1 := m[dest := m[src]];
    if i == 0 {
      ByteCopyKeepsBelow(m1, dest + 1, src + 1, n - 1, dest);
    } else {
      OverlappingByteCopyRepeats(m1, dest + 1, src + 1, n - 1, i - 1);
      NextWrap(i - 1, dest - src);
    }
  }

  // In a collision the memory that is 0 except for a 1 right behind the head
  // tells the two forms apart: the first dword carries the old 1 along.
  ghost function Marked(size: nat, at: nat): (m: seq<byte>)
    ensures |m| == size && (at < size ==> MarkedAt(m, at))
  {
    seq(size, k => if k == at then 1 else 0)
  }

  ghost predicate MarkedAt(m: seq<byte>, at: nat) {
    at < |m| && m[at] == 1 && forall k :: 0 <= k < at ==> m[k] == 0
  }

  lemma {:induction false} FastCopyAfterHead(m: seq<byte>, dest: nat, src: nat, n: nat, at: nat)
    requires dest + n <= |m| && src < dest && at == dest + Head(dest) && n >= Head(dest) + 4
    requires MarkedAt(m, at)
    ensures FastCopy(m, dest, src, n) == FastCopy(m, at, src + Head(dest), n - Head(dest))
    decreases n
  {
    hide AtOnce;
    if dest % 4 != 0 {
      assert m[dest := m[src]] == m;
      assert Head(dest + 1) == Head(dest) - 1;
      FastCopyAfterHead(m, dest + 1, src + 1, n - 1, at);
    }
  }

  lemma CollidingDword(m: seq<byte>, dest: nat, src: nat, n: nat)
    requires dest + n <= |m| && src < dest < src + 4 && dest % 4 == 0 && n >= 4 && m[dest] == 1
    ensures FastCopy(m, dest, src, n)[dest + (dest - src)] == 1
  {
    var m4 := AtOnce(m, dest, src, 4);
    assert m4[dest + (dest - src)] == m[src..src + 4][dest - src] == m[dest];
    hide AtOnce;
    FastCopyKeepsOutside(m4, dest + 4, src + 4, n - 4, dest + (dest - src));
  }

  lemma CollisionsDiffer(m: seq<byte>, dest: nat, src: nat, n: nat)
    requires dest + n <= |m| && Collides(dest, src, n) && MarkedAt(m, dest + Head(dest))
    ensures FastCopy(m, dest, src, n) != ByteCopy(m, dest, src, n)
  {
    hide FastCopy, ByteCopy, Wrap;
    var h, d := Head(dest), dest - src;
    FastCopyAfterHead(m, dest, src, n, dest + h);
    CollidingDword(m, dest + h, src + h, n - h);
    OverlappingByteCopyRepeats(m, dest, src, n, h + d);
    assert FastCopy(m, dest, src, n)[dest + (h + d)] == 1;
    assert ByteCopy(m, dest, src, n)[dest + (h + d)] == 0;
  }

  // The exact condition: memcpy is the byte copy on every memory if and only if
  // the regions do not collide.
  lemma FastIsByteCopyIff(size: nat, dest: nat, src: nat, n: nat)
    requires dest + n <= size && src + n <= size
    ensures !Collides(dest, src, n) <==>
      forall m: seq<byte> :: |m| == size ==> FastCopy(m, dest, src, n) == ByteCopy(m, dest, src, n)
  {
    if Collides(dest, src, n) {
      var m: seq<byte> := Marked(size, dest + Head(dest));
      CollisionsDiffer(m, dest, src, n);
    } else {
      forall m: seq<byte> | |m| == size
        ensures FastCopy(m, dest, src, n) == ByteCopy(m, dest, src, n)
      {
        FastIsByteCopy(m, dest, src, n);
      }
    }
  }

  // Copying down, or to a disjoint region, is copying all at once.
  lemma {:induction false} ByteCopyIsAtOnce(m: seq<byte>, dest: nat, src: nat, n: nat)
    requires dest + n <= |m| && src + n <= |m| && (dest <= src || src + n <= dest)
    ensures ByteCopy(m, dest, src, n) == AtOnce(m, dest, src, n)
    decreases n
  {
    if n > 0 {
      var m1 := m[dest := m[src]];
      ByteCopyIsAtOnce(m1, dest + 1, src + 1, n - 1);
      assert m1[src + 1..src + n] == m[src..src + n][1..];
      assert m1[..dest + 1] == m[..dest] + [m[src]];
    }
  }

  lemma MemcpyMovesAll(m: seq<byte>, dest: nat, src: nat, n: nat)
    requires dest + n <= |m| && src + n <= |m| && (dest <= src || src + n <= dest)
    ensures FastCopy(m, dest, src, n) == AtOnce(m, dest, src, n)
  {
    assert !Collides(dest, src, n);
    FastIsByteCopy(m, dest, src, n);
    ByteCopyIsAtOnce(m, dest, src, n);
  }

  // ---- memset and memmove ----

  method Memset(mem: array<byte>, s: nat, c: int, n: nat)
    requires s + n <= mem.Length
    modifies mem
    ensures mem[..] == Splice(old(mem[..]), s, seq(n, _ => c % 256))
  {
    var al: byte := c % 256;
    var edi: nat, ecx: nat := s, n;
    while ecx != 0 && edi % 4 != 0
      invariant s <= edi && edi + ecx == s + n
      invariant forall k {:trigger mem[k]} :: s <= k < edi ==> mem[k] == al
      invariant forall k {:trigger mem[k]} :: 0 <= k < s || edi <= k < mem.Length ==> mem[k] == old(mem[k])
      decreases ecx
    {
      mem[edi] := al;
      edi, ecx := edi + 1, ecx - 1;
    }
    var edx: nat := ecx % 4;
    ecx := ecx / 4;
    while ecx != 0
      invariant edx < 4 && edi + 4 * ecx + edx == s + n && s <= edi <= s + n
      invariant forall k {:trigger mem[k]} :: s <= k < edi ==> mem[k] == al
      invariant forall k {:trigger mem[k]} :: 0 <= k < s || edi <= k < mem.Length ==> mem[k] == old(mem[k])
      decreases ecx
    {
      mem[edi], mem[edi + 1], mem[edi + 2], mem[edi + 3] := al, al, al, al;
      edi, ecx := edi + 4, ecx - 1;
    }
    while edx != 0
      invariant edx < 4 && edi + edx == s + n && s <= edi <= s + n
      invariant forall k {:trigger mem[k]} :: s <= k < edi ==> mem[k] == al
      invariant forall k {:trigger mem[k]} :: 0 <= k < s || edi <= k < mem.Length ==> mem[k] == old(mem[k])
      decreases edx
    {
      mem[edi] := al;
      edi, edx := edi + 1, edx - 1;
    }
    IsSplice(old(mem[..]), s, seq(n, _ => c % 256), mem[..]);
  }

  // However the regions overlap, memmove copies all bytes at once.
  method Memmove(mem: array<byte>, dest: nat, src: nat, n: nat)
    requires dest + n <= mem.Length && src + n <= mem.Length
    modifies mem
    ensures mem[..] == AtOnce(old(mem[..]), dest, src, n)
  {
    if src >= dest {
      MoveUpwards(mem, dest, src, n);
    } else {
      MoveDownwards(mem, dest, src, n);
    }
  }

  // rep movsb with the direction flag clear.
  method MoveUpwards(mem: array<byte>, dest: nat, src: nat, n: nat)
    requires dest <= src && src + n <= mem.Length
    modifies mem
    ensures mem[..] == AtOnce(old(mem[..]), dest, src, n)
  {
    ghost var m, c := mem[..], mem[src..src + n];
    var i := 0;
    while i < n
      invariant 0 <= i <= n
      invariant forall k {:trigger mem[k]} :: dest <= k < dest + i ==> mem[k] == c[k - dest]
      invariant forall k {:trigger mem[k]} :: 0 <= k < dest || dest + i <= k < mem.Length ==> mem[k] == m[k]
    {
      mem[dest + i] := mem[src + i];
      i := i + 1;
    }
    IsSplice(m, dest, c, mem[..]);
  }

  // The same from the top, with the direction flag set.
  method MoveDownwards(mem: array<byte>, dest: nat, src: nat, n: nat)
    requires src < dest && dest + n <= mem.Length
    modifies mem
    ensures mem[..] == AtOnce(old(mem[..]), dest, src, n)
  {
    ghost var m, c := mem[..], mem[src..src + n];
    var i := n;
    while i > 0
      invariant 0 <= i <= n
      invariant forall k {:trigger mem[k]} :: dest + i <= k < dest + n ==> mem[k] == c[k - dest]
      invariant forall k {:trigger mem[k]} :: 0 <= k < dest + i || dest + n <= k < mem.Length ==> mem[k] == m[k]
    {
      i := i - 1;
      mem[dest + i] := mem[src + i];
    }
    IsSplice(m, dest, c, mem[..]);
  }
}
