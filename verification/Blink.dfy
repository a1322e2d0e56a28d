// The blink engine itself: fish/blink.S on the pool of fish/fish.c.
module BlinkEngine {
  import opened CString
  import opened BlinkSpec

  class Node {
    var location: u16
    var onChar: byte
    var offChar: byte
    var onLength: u16
    var offLength: u16
    var countdown: u16
    var status: u16
    var next: Node?

    constructor ()
      ensures location == 0 && next == null
    {
      location, onChar, offChar := 0, 0, 0;
      onLength, offLength, countdown, status := 0, 0, 0, 0;
      next := null;
    }

    ghost function Value(): Blink
      reads this
    {
      Blink(location, onChar, offChar, onLength, offLength, countdown, status)
    }
  }

  ghost predicate Distinct(s: seq<Node>) {
    forall i, j :: 0 <= i < j < |s| ==> s[i] != s[j]
  }

  ghost function NodeAt(list: seq<Node>, i: nat): Node? {
    if i < |list| then list[i] else null
  }

  ghost function ValuesOf(nodes: seq<Node>): (s: seq<Blink>)
    reads nodes
    ensures |s| == |nodes| && forall i {:trigger s[i]} :: 0 <= i < |s| ==> s[i] == nodes[i].Value()
  {
    seq(|nodes|, i requires 0 <= i < |nodes| reads nodes => nodes[i].Value())
  }

  // The members of a pool that a list of some of them leaves out.
  lemma CountLeftOut(pool: seq<Node>, list: seq<Node>, out: set<Node>)
    requires Distinct(pool) && Distinct(list) && forall i :: 0 <= i < |list| ==> list[i] in pool
    requires out == set n | n in pool && n !in list
    ensures |out| + |list| == |pool|
  {
    DistinctCount(pool);
    DistinctCount(list);
    var used, all := set n | n in list, set n | n in pool;
    assert forall n :: n in used ==> n in all;
    assert out + used == all && out !! used;
  }

  lemma {:induction false} DistinctCount(s: seq<Node>)
    requires Distinct(s)
    ensures |set n | n in s| == |s|
  {
    if s == [] {
      assert (set n | n in s) == {};
    } else {
      var t := s[1..];
      assert forall i, j :: 0 <= i < j < |t| ==> t[i] == s[i + 1] && t[j] == s[j + 1];
      DistinctCount(t);
      assert forall i :: 0 <= i < |t| ==> s[0] != t[i];
      assert (set n | n in s) == {s[0]} + (set n | n in t);
    }
  }

  class Engine {
    const pool: seq<Node>          // blink_array: free exactly where location is 0
    const screen: array<byte>      // the video page that vidmap returned
    var head: Node?                // mp1_list_head
    ghost var list: seq<Node>      // the nodes from head on

    ghost predicate PoolOk() {
      |pool| == SPOTS && Distinct(pool) && screen.Length == SCREEN
    }

    ghost predicate Linked()
      reads this, pool
    {
      && Distinct(list) && (forall i :: 0 <= i < |list| ==> list[i] in pool)
      && head == NodeAt(list, 0)
      && forall i {:trigger list[i]} :: 0 <= i < |list| ==> list[i].next == NodeAt(list, i + 1)
    }

    // An acyclic list of distinct pool nodes, and they are exactly those in use.
    ghost predicate Valid()
      reads this, pool
    {
      && PoolOk() && Linked()
      && (forall i {:trigger list[i]} :: 0 <= i < |list| ==> list[i].location < SPOTS)
      && forall n {:trigger n in pool} :: n in pool ==> (n.location == 0 <==> n !in list)
    }

    ghost function Values(): (s: seq<Blink>)
      reads this, pool
      requires PoolOk() && Linked()
      ensures |s| == |list| && forall i {:trigger s[i]} :: 0 <= i < |s| ==> s[i] == list[i].Value()
    {
      ValuesOf(list)
    }

    ghost function View(): State
      requires PoolOk() && Linked()
      reads this, pool, screen
    {
      State(Values(), screen[..])
    }

    constructor (screen: array<byte>)
      requires screen.Length == SCREEN
      ensures this.screen == screen && fresh(pool) && Valid() && View() == State([], screen[..])
    {
      this.screen := screen;
      head := null;
      list := [];
      var nodes: seq<Node> := [];
      while |nodes| < SPOTS
        invariant |nodes| <= SPOTS && fresh(nodes) && Distinct(nodes)
        invariant forall n {:trigger n in nodes} :: n in nodes ==> n.location == 0
      {
        var n := new Node();
        nodes := nodes + [n];
      }
      pool := nodes;
    }

    // Free slots and listed ones are the whole pool.
    lemma FreePlusListed()
      requires Valid()
      ensures |set n | n in pool && n.location == 0| + |list| == SPOTS
      ensures (exists n :: n in pool && n.location == 0) <==> |list| < SPOTS
    {
      var free, out := set n | n in pool && n.location == 0, set n | n in pool && n !in list;
      assert free == out;
      CountLeftOut(pool, list, out);
      if out != {} {
        var n :| n in out;
        assert n in free;
      }
      assert forall n :: n in pool && n.location == 0 ==> n in out;
    }

    lemma ViewIsGood()
      requires Valid()
      ensures Good(View())
    {
      FreePlusListed();
      assert forall i {:trigger list[i]} :: 0 <= i < |list| ==> list[i] in pool && list[i] in list;
    }

    // mp1_malloc: the first slot whose location is 0.
    method Malloc() returns (n: Node?)
      requires PoolOk()
      ensures n == null ==> forall m :: m in pool ==> m.location != 0
      ensures n != null ==> exists i :: 0 <= i < |pool| && n == pool[i] && n.location == 0 &&
                              forall j :: 0 <= j < i ==> pool[j].location != 0
    {
      var i := 0;
      while i < 80 * 25
        invariant 0 <= i <= SPOTS
        invariant forall j :: 0 <= j < i ==> pool[j].location != 0
      {
        if pool[i].location == 0 { return pool[i]; }
        i := i + 1;
      }
      return null;
    }

    method Free(n: Node)
      modifies n
      ensures n.location == 0 && n.next == null
    {
      n.location, n.onChar, n.offChar := 0, 0, 0;
      n.onLength, n.offLength, n.countdown, n.status := 0, 0, 0, 0;
      n.next := null;
    }

    // mp1_poke: the character byte of a location; the attribute is left alone.
    method PokeAt(location: u16, c: byte)
      requires screen.Length == SCREEN && location < SPOTS
      modifies screen
      ensures screen[..] == Poke(old(screen[..]), location, c)
    {
      screen[2 * location] := c;
    }

    // The new node is filled in, linked in front, and shown.
    method Insert(n: Node, b: Blink)
      requires screen.Length == SCREEN && b.location < SPOTS
      modifies this`head, n, screen
      ensures n.Value() == Begun(b) && n.next == old(head) && head == n
      ensures screen[..] == Poke(old(screen[..]), b.location, b.onChar)
    {
      n.location, n.onChar, n.offChar := b.location, b.onChar, b.offChar;
      n.onLength, n.offLength, n.countdown, n.status := b.onLength, b.offLength, b.onLength, 1;
      n.next := head;
      head := n;
      PokeAt(n.location, n.onChar);
    }

    ghost predicate FirstFree(n: Node)
      reads pool
    {
      exists i :: 0 <= i < |pool| && n == pool[i] && n.location == 0 && forall j :: 0 <= j < i ==> pool[j].location != 0
    }

    // An add, in any state of the pool: refused without a change for a location out
    // of range or when no slot is free; else the first free slot is filled in, put in
    // front, and shown.
    method AddNode(b: Blink) returns (r: int, ghost n: Node?)
      requires PoolOk()
      modifies this, pool, screen
      ensures r == if b.location < SPOTS && exists m :: m in pool && old(m.location) == 0 then 0 else -1
      ensures r == -1 ==> unchanged(this) && unchanged(pool) && unchanged(screen)
      ensures r == 0 ==> n != null && head == n && n in pool && old(FirstFree(n)) && list == [n] + old(list)
      ensures r == 0 ==> n.Value() == Begun(b) && n.next == old(head)
      ensures r == 0 ==> forall m :: m in pool && m != n ==> m.Value() == old(m.Value()) && m.next == old(m.next)
      ensures r == 0 ==> screen[..] == Poke(old(screen[..]), b.location, b.onChar)
    {
      hide Poke;
      if b.location >= 80 * 25 { return -1, null; }
      var slot := Malloc();
      if slot == null { return -1, null; }
      Insert(slot, b);
      list := [slot] + list;
      return 0, slot;
    }

    // What a list becomes when a node is linked in front of it.
    ghost predicate Tail(n: Node, was: seq<Node>)
      reads n, pool
    {
      && Distinct(was) && n in pool && n !in was && n.next == NodeAt(was, 0)
      && (forall i {:trigger was[i]} :: 0 <= i < |was| ==>
            was[i] in pool && was[i].next == NodeAt(was, i + 1) && was[i].location < SPOTS)
      && forall m {:trigger m in pool} :: m in pool && m != n ==> (m.location == 0 <==> m !in was)
    }

    // The add on a valid list: what was the list is intact behind the new node.
    method AddInFront(b: Blink) returns (r: int, ghost n: Node?)
      requires Valid()
      modifies this, pool, screen
      ensures r == if b.location < SPOTS && |old(list)| < SPOTS then 0 else -1
      ensures r == -1 ==> unchanged(this) && unchanged(pool) && unchanged(screen)
      ensures r == 0 ==> n != null && n in pool && head == n && old(FirstFree(n))
      ensures r == 0 ==> list == [n] + old(list) && Tail(n, old(list))
      ensures r == 0 ==> n.Value() == Begun(b) && n.next == old(head)
      ensures r == 0 ==> ValuesOf(old(list)) == old(Values())
      ensures r == 0 ==> forall m :: m in pool && m != n ==> m.Value() == old(m.Value()) && m.next == old(m.next)
      ensures r == 0 ==> screen[..] == Poke(old(screen[..]), b.location, b.onChar)
    {
      FreePlusListed();
      ghost var was := list;
      assert forall i {:trigger was[i]} :: 0 <= i < |was| ==> was[i] in pool;
      hide NodeAt;
      r, n := AddNode(b);
    }

    // mp1_ioctl_add on a valid list.  It leaves a valid one exactly for a location
    // other than 0 or on a full pool, and then it is the specification's add.
    method IoctlAdd(b: Blink) returns (r: int, ghost n: Node?)
      requires Valid()
      modifies this, pool, screen
      ensures Good(old(View())) && r == if b.location < SPOTS && |old(list)| < SPOTS then 0 else -1
      ensures Valid() <==> b.location != 0 || |old(list)| == SPOTS
      ensures b.location != 0 ==> Valid() && (View(), r) == Do(old(View()), Add(b))
      ensures r == -1 ==> unchanged(this) && unchanged(pool) && unchanged(screen)
      ensures r == 0 ==> n != null && head == n && n in pool && n !in old(list) && list == [n] + old(list)
      ensures r == 0 ==> old(FirstFree(n)) && n.Value() == Begun(b) && n.next == old(head)
      ensures r == 0 ==> forall m :: m in pool && m != n ==> m.Value() == old(m.Value()) && m.next == old(m.next)
    {
      hide Linked, Distinct, NodeAt, FirstFree;
      ViewIsGood();
      ghost var was, vals := list, Values();
      r, n := AddInFront(b);
      if r == 0 {
        if b.location != 0 {
          ListGrew(n, was);
          GrownValues(n, was, vals, b);
        } else {
          assert n in list && n.location == 0;
        }
      }
    }

    // A new node in front of what was a valid list.
    lemma ListGrew(n: Node, was: seq<Node>)
      requires PoolOk() && Tail(n, was) && 0 < n.location < SPOTS && list == [n] + was && head == n
      ensures Valid()
    {
      hide NodeAt;
      HeadOf(n, was);
      Prepended(n, was, list);
      assert forall i {:trigger list[i]} :: 0 <= i < |list| ==> list[i].next == NodeAt(list, i + 1);
      assert Linked();
    }

    lemma GrownValues(n: Node, was: seq<Node>, vals: seq<Blink>, b: Blink)
      requires PoolOk() && Linked() && list == [n] + was && n.Value() == Begun(b) && ValuesOf(was) == vals
      ensures Values() == [Begun(b)] + vals
    {
      hide Linked;
    }

    lemma HeadOf(n: Node, was: seq<Node>)
      ensures NodeAt([n] + was, 0) == n
    {
    }

    lemma Prepended(n: Node, was: seq<Node>, list: seq<Node>)
      requires Distinct(was) && n !in was && list == [n] + was
      ensures Distinct(list)
      ensures forall i {:trigger list[i]} :: 0 <= i < |list| ==> list[i] == if i == 0 then n else was[i - 1]
      ensures forall i {:trigger NodeAt(was, i)} :: 0 <= i <= |was| ==> NodeAt(list, i + 1) == NodeAt(was, i)
    {
    }

    // mp1_find_helper: the first node at a location.
    method FindHelper(location: u16) returns (n: Node?)
      requires Valid()
      ensures n == NodeAt(list, First(Values(), location))
    {
      n := head;
      ghost var i := 0;
      while n != null && n.location != location
        invariant 0 <= i <= |list| && n == NodeAt(list, i)
        invariant forall j {:trigger list[j]} :: 0 <= j < i ==> list[j].location != location
        decreases |list| - i
      {
        n := n.next;
        i := i + 1;
      }
      assert i < |list| ==> First(Values(), location) == i by {
        if i < |list| { FirstIsAt(Values(), location, i); }
      }
    }

    // One node's share of a tasklet call.
    method TickNode(n: Node)
      requires screen.Length == SCREEN && n.location < SPOTS
      modifies n`countdown, n`status, screen
      ensures n.Value() == Tick(old(n.Value()))
      ensures screen[..] ==
        if Toggles(old(n.Value())) then Poke(old(screen[..]), n.location, Shown(n.Value())) else old(screen[..])
    {
      n.countdown := Dec(n.countdown);
      if Positive(n.countdown) { return; }
      if n.status % 2 == 1 {
        PokeAt(n.location, n.offChar);
        n.countdown := n.offLength;
      } else {
        PokeAt(n.location, n.onChar);
        n.countdown := n.onLength;
      }
      n.status := Flip(n.status);
    }

    // mp1_rtc_tasklet: every node ticks, front to back.
    method RtcTasklet()
      requires Valid()
      modifies pool, screen
      ensures Valid() && Good(old(View())) && View() == Do(old(View()), Call).0
    {
      hide Tick, Linked, CallScreen;
      ViewIsGood();
      Walk(Values());
    }

    method Walk(ghost was: seq<Blink>)
      requires Valid() && was == Values()
      modifies pool, screen
      ensures Valid() && (forall j {:trigger was[j]} :: 0 <= j < |was| ==> was[j].location < SPOTS)
      ensures Values() == CallList(was) && screen[..] == CallScreen(was, old(screen[..]))
    {
      hide *;
      ghost var bytes := screen[..];
      WalkBegins(was, bytes);
      WalkAll(was, bytes);
      WalkEnds(was, bytes);
    }

    method WalkAll(ghost was: seq<Blink>, ghost bytes: seq<byte>)
      requires Valid() && Walked(was, 0, bytes)
      modifies pool, screen
      ensures Valid() && Walked(was, |list|, bytes)
    {
      hide *;
      Here(0);
      var n := head;
      ghost var i := 0;
      while n != null
        invariant 0 <= i <= |list| && n == NodeAt(list, i) && Valid() && Walked(was, i, bytes)
        decreases |list| - i
      {
        Here(i);
        TickStep(n, i, was, bytes);
        Here(i);
        n := n.next;
        i := i + 1;
      }
      Here(i);
    }

    // The first i nodes have had their tick, and their part of the drawing is done.
    ghost predicate Walked(was: seq<Blink>, i: nat, bytes: seq<byte>)
      requires Valid()
      reads this, pool, screen
    {
      && i <= |was| == |list| && |bytes| == SCREEN
      && (forall j {:trigger was[j]} :: 0 <= j < |was| ==> was[j].location < SPOTS)
      && Values() == CallList(was[..i]) + was[i..]
      && CallScreen(was[i..], screen[..]) == CallScreen(was, bytes)
    }

    lemma Here(i: nat)
      requires Valid() && i <= |list|
      ensures head == NodeAt(list, 0) && (NodeAt(list, i) == null <==> i == |list|)
      ensures i < |list| ==>
        NodeAt(list, i) == list[i] && list[i].next == NodeAt(list, i + 1) && list[i] in pool
    {
    }

    lemma WalkBegins(was: seq<Blink>, bytes: seq<byte>)
      requires Valid() && was == Values() && bytes == screen[..]
      ensures Walked(was, 0, bytes)
    {
      assert CallList(was[..0]) + was[0..] == was && was[0..] == was;
    }

    lemma WalkEnds(was: seq<Blink>, bytes: seq<byte>)
      requires Valid() && Walked(was, |list|, bytes)
      ensures |bytes| == SCREEN && forall j {:trigger was[j]} :: 0 <= j < |was| ==> was[j].location < SPOTS
      ensures Values() == CallList(was) && screen[..] == CallScreen(was, bytes)
    {
      assert was[..|was|] == was && was[|was|..] == [];
    }

    // Changing one listed node's timing changes that value and nothing else.
    twostate lemma OneNodeChanged(i: nat)
      requires old(Valid()) && head == old(head) && list == old(list) && i < |list|
      requires forall n {:trigger n.next} :: n in pool ==> n.next == old(n.next)
      requires forall n {:trigger n.location} :: n in pool ==> n.location == old(n.location)
      requires forall n {:trigger n.Value()} :: n in pool && n != list[i] ==> n.Value() == old(n.Value())
      ensures Valid() && Values() == old(Values())[i := list[i].Value()]
    {
      assert forall k {:trigger list[k]} :: 0 <= k < |list| ==> list[k] in pool && list[k].next == old(list[k].next);
      assert Linked();
      assert forall k {:trigger list[k]} :: 0 <= k < |list| && k != i ==> list[k].Value() == old(list[k].Value());
    }

    // One step of the walk.
    method TickStep(n: Node, ghost i: nat, ghost was: seq<Blink>, ghost bytes: seq<byte>)
      requires Valid() && i < |list| && n == list[i] && Walked(was, i, bytes)
      modifies n`countdown, n`status, screen
      ensures Valid() && Walked(was, i + 1, bytes)
      ensures |list| == |was|
    {
      hide Tick, Toggles, Poke, Shown;
      assert Values()[i] == was[i] == n.Value();
      TickNode(n);
      OneNodeChanged(i);
      CallStep(was, i, old(screen[..]));
    }

    // The predecessor walk: from the head pointer along the next fields, to the
    // pointer that holds n.  It ends because n is in the list.
    method Predecessor(n: Node, ghost i: nat) returns (prev: Node?)
      requires Valid() && i < |list| && n == list[i]
      ensures prev == if i == 0 then null else list[i - 1]
    {
      prev := null;
      ghost var j := 0;
      while (if prev == null then head else prev.next) != n
        invariant 0 <= j <= i && prev == (if j == 0 then null else list[j - 1])
        decreases i - j
      {
        prev := if prev == null then head else prev.next;
        j := j + 1;
      }
    }

    // The first node of the location leaves the list, and its slot becomes free.
    method IoctlRemove(location: u16) returns (r: int, ghost i: nat)
      requires Valid()
      modifies this, pool
      ensures Valid() && Good(old(View())) && (View(), r) == Do(old(View()), Remove(location))
      ensures r == if Occupied(old(Values()), location) then 0 else -1
      ensures r == -1 ==> list == old(list) && Values() == old(Values())
      ensures r == 0 ==> IsFirst(old(Values()), location, i)
      ensures r == 0 ==> list == old(list)[..i] + old(list)[i + 1..]
      ensures r == 0 ==> old(list)[i] !in list && old(list)[i].location == 0
      ensures r == 0 ==> Values() == old(Values())[..i] + old(Values())[i + 1..]
    {
      assert forall k {:trigger list[k]} :: 0 <= k < |list| ==> list[k] in pool;
      hide Linked, First, Occupied, IsFirst, Do, Good, RemoveAt, Distinct;
      ViewIsGood();
      i := RemovePlan(View(), location);
      var n := FindHelper(location);
      if n == null { return -1, i; }
      TakeOut(n, i);
      return 0, i;
    }

    method TakeOut(n: Node, ghost i: nat)
      requires Valid() && i < |list| && n == list[i]
      modifies this`head, this`list, pool
      ensures Valid() && list == old(list)[..i] + old(list)[i + 1..] && n !in list && n.location == 0
      ensures Values() == RemoveAt(old(Values()), i)
    {
      assert forall k {:trigger list[k]} :: 0 <= k < |list| ==> list[k] in pool;
      hide Linked, RemoveAt, Distinct;
      var prev := Predecessor(n, i);
      Unlink(prev, n, i);
      RemoveAtParts(old(list), i);
    }

    // Takes list[i] out and frees its slot.
    method Unlink(prev: Node?, n: Node, ghost i: nat)
      requires Valid() && i < |list| && n == list[i] && prev == if i == 0 then null else list[i - 1]
      modifies this`head, this`list, n, prev
      ensures Valid() && list == RemoveAt(old(list), i)
      ensures Values() == RemoveAt(old(Values()), i)
      ensures n !in list && n.location == 0
    {
      hide RemoveAt, NodeAt;
      ghost var was, vals := list, Values();
      Relink(prev, n);
      list := RemoveAt(list, i);
      Shortened(was, i, list);
      assert forall k {:trigger list[k]} :: 0 <= k < |list| ==> list[k] in pool && list[k] != n;
      assert Linked();
      hide Linked;
      assert Values() == RemoveAt(vals, i);
    }

    // The pointer that held n now holds n's successor; only n loses its value.
    method Relink(prev: Node?, n: Node)
      requires prev != n
      modifies this`head, n, prev
      ensures n.location == 0 && n.next == null
      ensures if prev == null then head == old(n.next) else head == old(head) && prev.next == old(n.next)
      ensures prev != null ==> prev.Value() == old(prev.Value())
    {
      if prev == null { head := n.next; } else { prev.next := n.next; }
      Free(n);
    }

    lemma Shortened(was: seq<Node>, i: nat, list: seq<Node>)
      requires Distinct(was) && i < |was| && list == RemoveAt(was, i)
      ensures Distinct(list) && was[i] !in list
      ensures forall k {:trigger list[k]} :: 0 <= k < |list| ==> list[k] == was[if k < i then k else k + 1]
      ensures forall k: nat {:trigger NodeAt(list, k)} :: k <= |list| ==>
        NodeAt(list, k) == NodeAt(was, if k < i then k else k + 1)
      ensures forall n :: n in was && n != was[i] ==> n in list
    {
      hide NodeAt;
      forall k: nat {:trigger NodeAt(list, k)} | k <= |list|
        ensures NodeAt(list, k) == NodeAt(was, if k < i then k else k + 1)
      {
        ShortenedAt(was, i, list, k);
      }
      forall n | n in was && n != was[i] ensures n in list {
        var k :| 0 <= k < |was| && was[k] == n;
        assert list[if k < i then k else k - 1] == n;
      }
    }

    lemma ShortenedAt(was: seq<Node>, i: nat, list: seq<Node>, k: nat)
      requires i < |was| && list == RemoveAt(was, i)
      ensures NodeAt(list, k) == NodeAt(was, if k < i then k else k + 1)
    {
    }

    method IoctlSync(source: u16, target: u16) returns (r: int)
      requires Valid()
      modifies pool, screen
      ensures Valid() && Good(old(View())) && (View(), r) == Do(old(View()), Sync(source, target))
      ensures r == if Occupied(old(Values()), source) && Occupied(old(Values()), target) then 0 else -1
    {
      ViewIsGood();
      var from := FindHelper(source);
      if from == null { return -1; }
      var to := FindHelper(target);
      if to == null { return -1; }
      hide First, Linked, Synced;
      CopyTiming(from, to, First(Values(), source), First(Values(), target));
      return 0;
    }

    // The sync copies lengths, countdown and status, and then always writes the off
    // character: the conditional move after testb is never taken.
    method CopyTiming(from: Node, to: Node, ghost i: nat, ghost j: nat)
      requires Valid() && i < |list| && j < |list| && from == list[i] && to == list[j]
      modifies to`onLength, to`offLength, to`countdown, to`status, screen
      ensures Valid() && Values() == old(Values())[j := Synced(old(Values())[i], old(Values())[j])]
      ensures screen[..] == Poke(old(screen[..]), to.location, to.offChar)
    {
      hide Poke, Synced, Linked;
      TakeTiming(from, to);
      PokeAt(to.location, to.offChar);
      OneNodeChanged(j);
    }

    method TakeTiming(from: Node, to: Node)
      modifies to`onLength, to`offLength, to`countdown, to`status
      ensures to.Value() == Synced(old(from.Value()), old(to.Value()))
    {
      to.onLength, to.offLength := from.onLength, from.offLength;
      to.countdown, to.status := from.countdown, from.status;
    }

    // Copies the first match out to the caller.
    method IoctlFind(location: u16) returns (r: int, b: Blink)
      requires Valid()
      ensures Good(View()) && r == Do(View(), Find(location)).1
      ensures r == if Occupied(Values(), location) then 0 else -1
      ensures r == 0 ==> FirstIs(Values(), location, b)
    {
      ViewIsGood();
      var n := FindHelper(location);
      if n == null { return -1, Blink(location, 0, 0, 0, 0, 0, 0); }
      b := Blink(n.location, n.onChar, n.offChar, n.onLength, n.offLength, n.countdown, n.status);
      return 0, b;
    }

    // Any run of commands.
    method Serve(cs: seq<Cmd>)
      requires Valid() && CanRun(View(), cs)
      modifies this, pool, screen
      ensures Valid() && View() == Run(old(View()), cs)
    {
      hide Do, Linked, Good;
      ghost var s := View();
      var i := 0;
      while i < |cs|
        invariant 0 <= i <= |cs| && Valid()
        invariant CanRun(View(), cs[i..]) && Run(View(), cs[i..]) == Run(s, cs)
      {
        ghost var v := View();
        assert cs[i..][0] == cs[i] && cs[i..][1..] == cs[i + 1..];
        var _ := Handle(cs[i]);
        DoKeepsGood(v, cs[i]);
        ghost var rest := cs[i + 1..];
        assert forall k :: 0 <= k < |rest| ==> rest[k] == cs[i..][k + 1];
        i := i + 1;
      }
    }

    method Handle(c: Cmd) returns (r: int)
      requires Valid() && (c.Add? ==> c.b.location != 0)
      modifies this, pool, screen
      ensures Valid() && Good(old(View())) && (View(), r) == Do(old(View()), c)
    {
      hide Do, Linked, Good;
      match c {
        case Call => { RtcTasklet(); r := 0; assert Do(old(View()), Call).1 == 0 by { CallReturns(old(View())); } }
        case Add(b) => { ghost var n; r, n := IoctlAdd(b); }
        case Remove(location) => { ghost var i; r, i := IoctlRemove(location); }
        case Sync(source, target) => r := IoctlSync(source, target);
        case Find(location) => { var b; r, b := IoctlFind(location); FindChangesNothing(old(View()), location); }
      }
    }

    lemma CallReturns(s: State)
      requires Good(s)
      ensures Do(s, Call).1 == 0
    {
    }

    lemma FindChangesNothing(s: State, location: u16)
      requires Good(s)
      ensures Do(s, Find(location)).0 == s
    {
    }
  }

  // A pool slot counts as free while its location is 0, so a character added at
  // location 0 is allocated again by the next add, and is then its own successor:
  // the list that starts at head has no end.
  method ZeroLocationMakesCycle(e: Engine, zero: Blink, b: Blink)
    requires e.Valid() && |e.list| < SPOTS && zero.location == 0 && b.location < SPOTS
    modifies e, e.pool, e.screen
    ensures !e.Valid() && e.head != null && e.head.next == e.head
  {
    var r, n := e.IoctlAdd(zero);
    var q, m := e.AddNode(b);
    assert m == n;
  }
}
