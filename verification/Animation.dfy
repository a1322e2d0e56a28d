// What fish/fish.c shows: the two frames in turn, one for 15 tasklet calls and the
// other for the next 15.
module Animation {
  import opened CString
  import opened FileSystem
  import opened Descriptors
  import opened BlinkSpec
  import opened BlinkEngine
  import opened Fish

  // Rows of at most 80 characters, and nothing drawn below the screen.
  ghost predicate FitsScreen(p: Picture) {
    && (forall r {:trigger Width(p, r)} :: 0 <= r < Height(p) ==> Width(p, r) <= 80)
    && forall s {:trigger Drawn(p, s)} :: Drawn(p, s) ==> s.row * 80 + s.col + OFFSET < SPOTS
  }

  ghost function Loc(p: Picture, s: Spot): u16 { BlinkAt(p, s).location }

  lemma DrawnLocation(p: Picture, s: Spot)
    requires FitsScreen(p) && Drawn(p, s)
    ensures s.col < 80 && OFFSET <= Loc(p, s) == s.row * 80 + s.col + OFFSET < SPOTS
  {
    assert Width(p, s.row) <= 80;
    SmallPicturesHaveLocations(p, s);
  }

  // Later spots have greater locations, so no two share one, and they are fewer
  // than the pool has slots.
  lemma LaterIsGreater(p: Picture, i: nat, j: nat)
    requires FitsScreen(p) && i < j < |SpotsFrom(p, 0, 0)|
    ensures Drawn(p, SpotsFrom(p, 0, 0)[i]) && Drawn(p, SpotsFrom(p, 0, 0)[j])
    ensures Loc(p, SpotsFrom(p, 0, 0)[i]) < Loc(p, SpotsFrom(p, 0, 0)[j])
  {
    var spots := SpotsFrom(p, 0, 0);
    SpotsAreTheDrawn(p, 0, 0, spots[i]);
    SpotsAreTheDrawn(p, 0, 0, spots[j]);
    SpotsAreInOrder(p, 0, 0);
    assert Before(spots[i], spots[j]);
    hide SpotsFrom, Drawn, FitsScreen, Loc;
    DrawnLocation(p, spots[i]);
    DrawnLocation(p, spots[j]);
  }

  lemma {:induction false} LocationAtLeast(p: Picture, i: nat)
    requires FitsScreen(p) && i < |SpotsFrom(p, 0, 0)|
    ensures OFFSET + i <= Loc(p, SpotsFrom(p, 0, 0)[i]) < SPOTS
  {
    var spots := SpotsFrom(p, 0, 0);
    SpotsAreTheDrawn(p, 0, 0, spots[i]);
    hide SpotsFrom, FitsScreen, Loc, Drawn;
    DrawnLocation(p, spots[i]);
    if i > 0 {
      LocationAtLeast(p, i - 1);
      LaterIsGreater(p, i - 1, i);
    }
  }

  // ---- The engine after the adds ----

  ghost predicate Addable(p: Picture, spots: seq<Spot>) {
    |spots| <= SPOTS && forall i {:trigger spots[i]} :: 0 <= i < |spots| ==> 0 < Loc(p, spots[i]) < SPOTS
  }

  lemma AddsCanRun(p: Picture, spots: seq<Spot>, screen: seq<byte>)
    requires Addable(p, spots) && |screen| == SCREEN
    ensures CanRun(State([], screen), Adds(p, spots))
  {
  }

  // The list is the spots, the last one first.
  lemma {:induction false} AddsBuild(p: Picture, spots: seq<Spot>, screen: seq<byte>)
    requires Addable(p, spots) && |screen| == SCREEN
    ensures CanRun(State([], screen), Adds(p, spots))
    ensures var list := Run(State([], screen), Adds(p, spots)).list;
      |list| == |spots| && forall k {:trigger list[k]} :: 0 <= k < |list| ==>
        list[k].location == Loc(p, spots[|spots| - 1 - k])
    decreases |spots|
  {
    var s := State([], screen);
    AddsCanRun(p, spots, screen);
    if spots != [] {
      var init, last := spots[..|spots| - 1], spots[|spots| - 1];
      var b := BlinkAt(p, last);
      assert Addable(p, init) by { assert forall i {:trigger init[i]} :: 0 <= i < |init| ==> init[i] == spots[i]; }
      assert Adds(p, spots) == Adds(p, init) + [Add(b)];
      AddsBuild(p, init, screen);
      RunAppends(s, Adds(p, init), [Add(b)]);
      var t := Run(s, Adds(p, init));
      OneAdd(t, b);
      hide Run, Do, Adds;
      var list := Run(s, Adds(p, spots)).list;
      assert list == [Begun(b)] + t.list;
      forall k {:trigger list[k]} | 0 <= k < |list| ensures list[k].location == Loc(p, spots[|spots| - 1 - k]) {
        if k > 0 { assert list[k] == t.list[k - 1] && init[|init| - k] == spots[|spots| - 1 - k]; }
      }
    }
  }

  lemma OneAdd(t: State, b: Blink)
    requires Good(t) && |t.list| < SPOTS && 0 < b.location < SPOTS
    ensures CanRun(t, [Add(b)]) && Run(t, [Add(b)]) == Do(t, Add(b)).0
    ensures Do(t, Add(b)).0.list == [Begun(b)] + t.list
  {
    var c: seq<Cmd> := [Add(b)];
    assert c[1..] == [];
    DoKeepsGood(t, Add(b));
  }

  lemma {:induction false} CallsAppend(a: seq<Cmd>, b: seq<Cmd>)
    ensures Calls(a + b) == Calls(a) + Calls(b)
    decreases |a|
  {
    if a == [] {
      assert a + b == b;
    } else {
      assert (a + b)[1..] == a[1..] + b;
      CallsAppend(a[1..], b);
    }
  }

  lemma {:induction false} AddsDoNotCall(p: Picture, spots: seq<Spot>)
    ensures Calls(Adds(p, spots)) == 0
    decreases |spots|
  {
    if spots != [] {
      assert Adds(p, spots)[1..] == Adds(p, spots[1..]);
      AddsDoNotCall(p, spots[1..]);
    }
  }

  // ---- One spot, from its add on ----

  // Whatever else may happen to the engine, but nothing at this spot.
  ghost predicate LeavesAlone(later: seq<Cmd>, location: u16) {
    Untouched(later, location) && forall i {:trigger later[i]} :: 0 <= i < |later| && later[i].Add? ==>
      later[i].b.location != 0
  }

  ghost function Frame(p: Picture, s: Spot, calls: nat): byte {
    if calls % 30 < 15 then Fish.Padded(RowAt(p.rows0, s.row), s.col)
    else Fish.Padded(RowAt(p.rows1, s.row), s.col)
  }

  lemma ShownInPhase(p: Picture, s: Spot, calls: nat)
    ensures Period(BlinkAt(p, s)) == 2 * LENGTH
    ensures Shown(AtPhase(BlinkAt(p, s), calls % (2 * LENGTH))) == Frame(p, s, calls)
  {
  }

  // The adds after the i-th, and what follows them.
  ghost function Rest(p: Picture, spots: seq<Spot>, i: nat, later: seq<Cmd>): seq<Cmd>
    requires i < |spots|
  {
    Adds(p, spots[i + 1..]) + later
  }

  lemma Splits(p: Picture, spots: seq<Spot>, i: nat, later: seq<Cmd>)
    requires i < |spots|
    ensures Adds(p, spots) + later == Adds(p, spots[..i]) + ([Add(BlinkAt(p, spots[i]))] + Rest(p, spots, i, later))
  {
    var a, b, c := Adds(p, spots[..i]), Add(BlinkAt(p, spots[i])), Adds(p, spots[i + 1..]);
    assert Adds(p, spots) == a + [b] + c;
  }

  lemma RestLeavesAlone(p: Picture, i: nat, later: seq<Cmd>)
    requires FitsScreen(p) && i < |SpotsFrom(p, 0, 0)| && LeavesAlone(later, Loc(p, SpotsFrom(p, 0, 0)[i]))
    ensures var spots := SpotsFrom(p, 0, 0); LeavesAlone(Rest(p, spots, i, later), Loc(p, spots[i]))
    ensures Calls(Rest(p, SpotsFrom(p, 0, 0), i, later)) == Calls(later)
  {
    var spots := SpotsFrom(p, 0, 0);
    var tail := spots[i + 1..];
    AddsDoNotCall(p, tail);
    CallsAppend(Adds(p, tail), later);
    hide Calls, SpotsFrom, FitsScreen, Drawn;
    var rest := Rest(p, spots, i, later);
    forall k {:trigger rest[k]} | 0 <= k < |rest|
      ensures !Touches(rest[k], Loc(p, spots[i])) && (rest[k].Add? ==> rest[k].b.location != 0)
    {
      if k < |tail| {
        assert rest[k] == Add(BlinkAt(p, spots[i + 1 + k]));
        LaterIsGreater(p, i, i + 1 + k);
      } else {
        assert rest[k] == later[k - |tail|];
      }
    }
  }

  // Before its add, a spot's location is nowhere in the list.
  lemma NotYetThere(p: Picture, i: nat, screen: seq<byte>)
    requires FitsScreen(p) && i < |SpotsFrom(p, 0, 0)| && |screen| == SCREEN
    ensures var spots := SpotsFrom(p, 0, 0);
      && Addable(p, spots) && Addable(p, spots[..i])
      && CanRun(State([], screen), Adds(p, spots[..i]))
      && var list := Run(State([], screen), Adds(p, spots[..i])).list;
         |list| < SPOTS && First(list, Loc(p, spots[i])) == |list|
  {
    var spots := SpotsFrom(p, 0, 0);
    AllAddable(p);
    var before := spots[..i];
    hide SpotsFrom, FitsScreen, Run, Drawn, First;
    assert forall k {:trigger before[k]} :: 0 <= k < |before| ==> before[k] == spots[k];
    AddsBuild(p, before, screen);
    var list := Run(State([], screen), Adds(p, before)).list;
    forall k {:trigger list[k]} | 0 <= k < |list| ensures list[k].location != Loc(p, spots[i]) {
      LaterIsGreater(p, i - 1 - k, i);
    }
  }

  lemma AllAddable(p: Picture)
    requires FitsScreen(p)
    ensures Addable(p, SpotsFrom(p, 0, 0)) && |SpotsFrom(p, 0, 0)| < SPOTS
  {
    var spots := SpotsFrom(p, 0, 0);
    forall i {:trigger spots[i]} | 0 <= i < |spots| ensures 0 < Loc(p, spots[i]) < SPOTS { LocationAtLeast(p, i); }
    if spots != [] { LocationAtLeast(p, |spots| - 1); }
  }

  // The main result: after the adds of a picture that fits the screen, and any
  // commands that leave a drawn spot alone, its cell shows the first frame's
  // character in the first half of every 30 tasklet calls and the second frame's in
  // the other half.
  lemma FramesTakeTurns(p: Picture, screen: seq<byte>, s: Spot, later: seq<Cmd>)
    requires FitsScreen(p) && |screen| == SCREEN && Drawn(p, s) && LeavesAlone(later, Loc(p, s))
    ensures Loc(p, s) == s.row * 80 + s.col + OFFSET < SPOTS
    ensures CanRun(State([], screen), Adds(p, SpotsFrom(p, 0, 0)) + later)
    ensures Run(State([], screen), Adds(p, SpotsFrom(p, 0, 0)) + later).screen[2 * Loc(p, s)] ==
      Frame(p, s, Calls(later))
    ensures FirstIs(Run(State([], screen), Adds(p, SpotsFrom(p, 0, 0)) + later).list, Loc(p, s),
                    AtPhase(BlinkAt(p, s), Calls(later) % (2 * LENGTH)))
  {
    var spots, start := SpotsFrom(p, 0, 0), State([], screen);
    DrawnLocation(p, s);
    SpotsAreTheDrawn(p, 0, 0, s);
    var i :| 0 <= i < |spots| && spots[i] == s;
    hide SpotsFrom, FitsScreen, Drawn, Run, Do, First, Calls, Frame, AtPhase, Period, Shown, FirstIs, Alone, Adds;
    NotYetThere(p, i, screen);
    RestLeavesAlone(p, i, later);
    var b, before, rest := BlinkAt(p, s), Adds(p, spots[..i]), Rest(p, spots, i, later);
    Splits(p, spots, i, later);
    WholeRun(start, before, b, rest);
    BlinksFromItsAdd(Run(start, before), b, rest);
    ShownInPhase(p, s, Calls(later));
  }

  lemma WholeRun(start: State, before: seq<Cmd>, b: Blink, rest: seq<Cmd>)
    requires CanRun(start, before) && b.location != 0
    requires forall i {:trigger rest[i]} :: 0 <= i < |rest| && rest[i].Add? ==> rest[i].b.location != 0
    ensures CanRun(start, before + ([Add(b)] + rest)) && CanRun(Run(start, before), rest)
    ensures CanRun(Do(Run(start, before), Add(b)).0, rest)
    ensures Run(start, before + ([Add(b)] + rest)) == Run(Do(Run(start, before), Add(b)).0, rest)
  {
    hide Do;
    var c := [Add(b)] + rest;
    RunAppends(start, before, c);
    DoKeepsGood(Run(start, before), Add(b));
    assert c[1..] == rest;
  }

  // ---- main ----

  const WAIT := 200
  const LAST_WAIT := 2000

  // The byte of the video page that shows a spot's character.
  function CharAt(s: Spot): nat { 2 * (s.row * 80 + s.col + OFFSET) }

  ghost function Waits(n: nat): (cs: seq<Cmd>)
    ensures |cs| == n
  {
    seq(n, _ => Call)
  }

  const EXTRA: u16 := 540

  // The character that main adds after its first wait.
  function Extra(): Blink { Blink(EXTRA, 73, 77, 7, 6, 0, 0) }

  // What main does after its first wait.  The location that it removes is what its
  // loop counter holds.
  ghost function AfterFirstWait(): seq<Cmd> {
    [Add(Extra())] + Waits(WAIT) + [Sync(OFFSET, EXTRA)] + Waits(WAIT) + [Remove(WAIT)] + Waits(LAST_WAIT)
  }

  lemma {:induction false} WaitsCall(n: nat)
    ensures Calls(Waits(n)) == n
  {
    if n > 0 {
      assert Waits(n)[1..] == Waits(n - 1);
      WaitsCall(n - 1);
    }
  }

  lemma LeavesAloneAppends(a: seq<Cmd>, b: seq<Cmd>, location: u16)
    requires LeavesAlone(a, location) && LeavesAlone(b, location)
    ensures LeavesAlone(a + b, location)
  {
    var c := a + b;
    forall k {:trigger c[k]} | 0 <= k < |c| ensures !Touches(c[k], location) && (c[k].Add? ==> c[k].b.location != 0) {
      assert c[k] == if k < |a| then a[k] else b[k - |a|];
    }
  }

  // A location that main does not name is left alone, while 2600 calls are made.
  lemma MainLeavesAlone(location: u16)
    requires location != EXTRA && location != WAIT
    ensures LeavesAlone(Waits(WAIT) + AfterFirstWait(), location)
    ensures Calls(Waits(WAIT) + AfterFirstWait()) == 3 * WAIT + LAST_WAIT
  {
    var w, z, add, sync, rem := Waits(WAIT), Waits(LAST_WAIT), [Add(Extra())], [Sync(OFFSET, EXTRA)], [Remove(WAIT)];
    OneCommand(Add(Extra()), location);
    OneCommand(Sync(OFFSET, EXTRA), location);
    OneCommand(Remove(WAIT), location);
    WaitsCall(WAIT);
    WaitsCall(LAST_WAIT);
    assert LeavesAlone(w, location) && LeavesAlone(z, location);
    hide Waits, LeavesAlone, Calls;
    Joins(add, w, location);
    Joins(add + w, sync, location);
    Joins(add + w + sync, w, location);
    Joins(add + w + sync + w, rem, location);
    Joins(add + w + sync + w + rem, z, location);
    Joins(w, AfterFirstWait(), location);
  }

  lemma OneCommand(c: Cmd, location: u16)
    requires !Touches(c, location) && (c.Add? ==> c.b.location != 0)
    ensures LeavesAlone([c], location) && Calls([c]) == if c.Call? then 1 else 0
  {
    assert [c][1..] == [];
  }

  lemma Joins(a: seq<Cmd>, b: seq<Cmd>, location: u16)
    requires LeavesAlone(a, location) && LeavesAlone(b, location)
    ensures LeavesAlone(a + b, location) && Calls(a + b) == Calls(a) + Calls(b)
  {
    LeavesAloneAppends(a, b, location);
    CallsAppend(a, b);
  }

  // One more command, at the end of a run.
  lemma OneMore(s: State, cs: seq<Cmd>, c: Cmd)
    requires CanRun(s, cs) && (c.Add? ==> c.b.location != 0)
    ensures CanRun(s, cs + [c]) && Run(s, cs + [c]) == Do(Run(s, cs), c).0
  {
    var d: seq<Cmd> := [c];
    var e := cs + d;
    assert forall i {:trigger e[i]} :: 0 <= i < |e| ==> e[i] == if i < |cs| then cs[i] else c;
    RunAppends(s, cs, d);
    assert d[1..] == [];
    DoKeepsGood(Run(s, cs), c);
  }

  lemma SmallLocations(p: Picture)
    requires FitsScreen(p)
    ensures NoZeroLocation(p)
  {
    forall s | Drawn(p, s) ensures BlinkAt(p, s).location != 0 { DrawnLocation(p, s); }
  }

  lemma EverySpot(p: Picture, screen: seq<byte>, n: nat)
    requires FitsScreen(p) && |screen| == SCREEN
    ensures CanRun(State([], screen), Adds(p, SpotsFrom(p, 0, 0)) + Waits(n))
    ensures forall s {:trigger Drawn(p, s)} :: Drawn(p, s) ==>
      && CharAt(s) < SCREEN
      && Run(State([], screen), Adds(p, SpotsFrom(p, 0, 0)) + Waits(n)).screen[CharAt(s)] == Frame(p, s, n)
  {
    AllAddable(p);
    AddsCanRun(p, SpotsFrom(p, 0, 0), screen);
    hide SpotsFrom, Run, Frame, FitsScreen, Drawn;
    WaitsCall(n);
    forall s | Drawn(p, s)
      ensures CharAt(s) < SCREEN
      ensures Run(State([], screen), Adds(p, SpotsFrom(p, 0, 0)) + Waits(n)).screen[CharAt(s)] == Frame(p, s, n)
    {
      FramesTakeTurns(p, screen, s, Waits(n));
    }
  }

  // A frame's spots at the end of main, but for the two locations that main names.
  lemma EverySpotAtTheEnd(p: Picture, screen: seq<byte>)
    requires FitsScreen(p) && |screen| == SCREEN
    ensures CanRun(State([], screen), Adds(p, SpotsFrom(p, 0, 0)) + (Waits(WAIT) + AfterFirstWait()))
    ensures forall s {:trigger Drawn(p, s)} :: Drawn(p, s) && CharAt(s) != 2 * EXTRA && CharAt(s) != 2 * WAIT ==>
      && CharAt(s) < SCREEN
      && Run(State([], screen), Adds(p, SpotsFrom(p, 0, 0)) + (Waits(WAIT) + AfterFirstWait())).screen[CharAt(s)]
         == Frame(p, s, 3 * WAIT + LAST_WAIT)
  {
    var later := Waits(WAIT) + AfterFirstWait();
    AllAddable(p);
    MainCanRun(p, screen);
    hide SpotsFrom, Run, Frame, FitsScreen, Drawn, Waits, AfterFirstWait, CanRun;
    forall s | Drawn(p, s) && CharAt(s) != 2 * EXTRA && CharAt(s) != 2 * WAIT
      ensures CharAt(s) < SCREEN
      ensures Run(State([], screen), Adds(p, SpotsFrom(p, 0, 0)) + later).screen[CharAt(s)]
        == Frame(p, s, 3 * WAIT + LAST_WAIT)
    {
      DrawnLocation(p, s);
      MainLeavesAlone(Loc(p, s));
      FramesTakeTurns(p, screen, s, later);
    }
  }

  lemma MainCanRun(p: Picture, screen: seq<byte>)
    requires Addable(p, SpotsFrom(p, 0, 0)) && |screen| == SCREEN
    ensures CanRun(State([], screen), Adds(p, SpotsFrom(p, 0, 0)) + (Waits(WAIT) + AfterFirstWait()))
  {
    var cs, later := Adds(p, SpotsFrom(p, 0, 0)), Waits(WAIT) + AfterFirstWait();
    AddsCanRun(p, SpotsFrom(p, 0, 0), screen);
    MainLeavesAlone(0);
    hide SpotsFrom, Waits, AfterFirstWait, Adds;
    var all := cs + later;
    assert forall i {:trigger all[i]} :: 0 <= i < |all| ==> all[i] == if i < |cs| then cs[i] else later[i - |cs|];
  }

  // The character that main adds has taken over the frames' timing: it is in step with
  // the spot at location 40, and has its lengths.
  ghost predicate TookOver(list: seq<Blink>) {
    var i, j := First(list, OFFSET), First(list, EXTRA);
    && i < |list| && j < |list| && InStep(list[i], list[j])
    && list[j].onLength == list[j].offLength == LENGTH
  }

  lemma {:induction false} WaitsKeepCount(s: State, n: nat)
    requires Good(s)
    ensures CanRun(s, Waits(n)) && |Run(s, Waits(n)).list| == |s.list|
    decreases n
  {
    hide Do;
    if n > 0 {
      assert Waits(n)[1..] == Waits(n - 1);
      DoKeepsGood(s, Call);
      OneCall(s);
      WaitsKeepCount(Do(s, Call).0, n - 1);
    }
  }

  lemma OneCall(s: State)
    requires Good(s)
    ensures |Do(s, Call).0.list| == |s.list|
  {
  }

  // main's own character is there when it synchronises.
  lemma ExtraIsListed(s: State)
    requires Good(s) && |s.list| < SPOTS
    ensures CanRun(s, Early())
    ensures var list := Run(s, Early()).list; First(list, EXTRA) < |list|
  {
    var w, add := Waits(WAIT), [Add(Extra())];
    WaitsKeepCount(s, WAIT);
    var s1 := Run(s, w);
    OneAdd(s1, Extra());
    OneMore(s, w, Add(Extra()));
    var s2 := Run(s1, add);
    WaitsKeepCount(s2, WAIT);
    FirstAdded(Extra(), s1.list);
    WaitsLeaveAlone(WAIT, EXTRA);
    hide Run, Do, First, Waits, CanRun, Good, Ticks;
    UntouchedOnlyTicks(s2, w, EXTRA, Begun(Extra()), 0) by { TicksOfNone(Begun(Extra())); }
    FirstIsMeans(Run(s2, w).list, EXTRA, Ticks(Begun(Extra()), 0 + Calls(w)));
    CanRunJoins(s, w + add, w);
    RunAppends(s, w + add, w);
  }

  lemma TicksOfNone(b: Blink)
    ensures Ticks(b, 0) == b
  {
  }

  lemma FirstAdded(b: Blink, list: seq<Blink>)
    ensures FirstIs([Begun(b)] + list, b.location, Begun(b))
  {
  }

  lemma WaitsLeaveAlone(n: nat, location: u16)
    ensures Untouched(Waits(n), location)
  {
  }

  lemma CanRunJoins(s: State, a: seq<Cmd>, b: seq<Cmd>)
    requires CanRun(s, a) && CanRun(Run(s, a), b)
    ensures CanRun(s, a + b)
  {
    var c := a + b;
    hide Run;
    assert forall i {:trigger c[i]} :: 0 <= i < |c| ==> c[i] == if i < |a| then a[i] else b[i - |a|];
  }

  // What main does after it has synchronised.
  ghost function AfterSync(): seq<Cmd> { Waits(WAIT) + [Remove(WAIT)] + Waits(LAST_WAIT) }

  lemma AfterSyncLeavesAlone(location: u16)
    requires location == OFFSET || location == EXTRA
    ensures LeavesAlone(AfterSync(), location) && Untouched(AfterSync(), location)
  {
    var w, z, rem := Waits(WAIT), Waits(LAST_WAIT), [Remove(WAIT)];
    OneCommand(Remove(WAIT), location);
    assert LeavesAlone(w, location) && LeavesAlone(z, location);
    hide Waits;
    LeavesAloneAppends(w, rem, location);
    LeavesAloneAppends(w + rem, z, location);
  }

  // From a state in which both are listed, the sync puts them in step for good.
  lemma SyncLasts(s: State)
    requires Good(s) && First(s.list, OFFSET) < |s.list| && First(s.list, EXTRA) < |s.list|
    ensures CanRun(s, [Sync(OFFSET, EXTRA)] + AfterSync())
    ensures var list := Run(s, [Sync(OFFSET, EXTRA)] + AfterSync()).list;
      && First(list, OFFSET) < |list| && First(list, EXTRA) < |list|
      && InStep(list[First(list, OFFSET)], list[First(list, EXTRA)])
  {
    var sync := Sync(OFFSET, EXTRA);
    AfterSyncLeavesAlone(OFFSET);
    AfterSyncLeavesAlone(EXTRA);
    OneCommandRun(s, sync);
    var t := Run(s, [sync]);
    assert CanRun(s, AfterSync()) && CanRun(t, AfterSync());
    assert Do(s, sync).1 == 0;
    hide Run, Do, First, CanRun, AfterSync, Untouched, LeavesAlone, Good;
    SyncedStayInStep(s, OFFSET, EXTRA, AfterSync());
    CanRunJoins(s, [sync], AfterSync());
    RunAppends(s, [sync], AfterSync());
  }

  // At the end of main, if something is drawn in the picture's corner.
  lemma SyncTakesOver(p: Picture, screen: seq<byte>)
    requires FitsScreen(p) && |screen| == SCREEN && Drawn(p, Spot(0, 0))
    ensures CanRun(State([], screen), Adds(p, SpotsFrom(p, 0, 0)) + (Waits(WAIT) + AfterFirstWait()))
    ensures TookOver(Run(State([], screen), Adds(p, SpotsFrom(p, 0, 0)) + (Waits(WAIT) + AfterFirstWait())).list)
  {
    var cs := Adds(p, SpotsFrom(p, 0, 0));
    CornerAtTheEnd(p, screen);
    CornerBeforeSync(p, screen);
    ExtraBeforeSync(p, screen);
    hide *;
    var s1 := Run(State([], screen), cs + Early());
    RunIsGood(State([], screen), cs + Early());
    SyncLasts(s1);
    EndFromSync(State([], screen), cs);
    MeansTookOver(Run(State([], screen), cs + (Waits(WAIT) + AfterFirstWait())).list);
  }

  ghost function Early(): seq<Cmd> { Waits(WAIT) + [Add(Extra())] + Waits(WAIT) }

  lemma MeansTookOver(list: seq<Blink>)
    requires First(list, OFFSET) < |list| && First(list, EXTRA) < |list|
    requires InStep(list[First(list, OFFSET)], list[First(list, EXTRA)])
    requires list[First(list, OFFSET)].onLength == list[First(list, OFFSET)].offLength == LENGTH
    ensures TookOver(list)
  {
  }

  lemma RunIsGood(s: State, cs: seq<Cmd>)
    requires CanRun(s, cs)
    ensures Good(Run(s, cs))
  {
  }

  lemma EndFromSync(start: State, cs: seq<Cmd>)
    requires CanRun(start, cs + Early()) && CanRun(Run(start, cs + Early()), [Sync(OFFSET, EXTRA)] + AfterSync())
    ensures CanRun(start, cs + (Waits(WAIT) + AfterFirstWait()))
    ensures Run(start, cs + (Waits(WAIT) + AfterFirstWait())) ==
      Run(Run(start, cs + Early()), [Sync(OFFSET, EXTRA)] + AfterSync())
  {
    hide Run, CanRun, Waits;
    var late := [Sync(OFFSET, EXTRA)] + AfterSync();
    CanRunJoins(start, cs + Early(), late);
    RunAppends(start, cs + Early(), late);
    assert cs + Early() + late == cs + (Waits(WAIT) + AfterFirstWait());
  }

  lemma ExtraBeforeSync(p: Picture, screen: seq<byte>)
    requires FitsScreen(p) && |screen| == SCREEN
    ensures var cs := Adds(p, SpotsFrom(p, 0, 0)) + Early();
      && CanRun(State([], screen), cs)
      && First(Run(State([], screen), cs).list, EXTRA) < |Run(State([], screen), cs).list|
  {
    var start, cs := State([], screen), Adds(p, SpotsFrom(p, 0, 0));
    AllAddable(p);
    hide SpotsFrom, FitsScreen, Run, First, Waits, Adds, CanRun, Addable;
    AddsBuild(p, SpotsFrom(p, 0, 0), screen);
    RunIsGood(start, cs);
    ExtraIsListed(Run(start, cs));
    CanRunJoins(start, cs, Early());
    RunAppends(start, cs, Early());
  }

  // The corner's character, before the sync and at the end.
  lemma CornerBeforeSync(p: Picture, screen: seq<byte>)
    requires FitsScreen(p) && |screen| == SCREEN && Drawn(p, Spot(0, 0))
    ensures var cs := Adds(p, SpotsFrom(p, 0, 0)) + Early();
      && CanRun(State([], screen), cs)
      && First(Run(State([], screen), cs).list, OFFSET) < |Run(State([], screen), cs).list|
  {
    DrawnLocation(p, Spot(0, 0));
    OneCommand(Add(Extra()), OFFSET);
    assert LeavesAlone(Waits(WAIT), OFFSET);
    hide SpotsFrom, FitsScreen, Drawn, Run, First, Waits, CanRun, LeavesAlone;
    LeavesAloneAppends(Waits(WAIT), [Add(Extra())], OFFSET);
    LeavesAloneAppends(Waits(WAIT) + [Add(Extra())], Waits(WAIT), OFFSET);
    FramesTakeTurns(p, screen, Spot(0, 0), Early());
  }

  lemma CornerAtTheEnd(p: Picture, screen: seq<byte>)
    requires FitsScreen(p) && |screen| == SCREEN && Drawn(p, Spot(0, 0))
    ensures var cs := Adds(p, SpotsFrom(p, 0, 0)) + (Waits(WAIT) + AfterFirstWait());
      && CanRun(State([], screen), cs)
      && var list := Run(State([], screen), cs).list;
         var i := First(list, OFFSET);
         i < |list| && list[i].onLength == list[i].offLength == LENGTH
  {
    DrawnLocation(p, Spot(0, 0));
    MainLeavesAlone(OFFSET);
    hide SpotsFrom, FitsScreen, Drawn, Run, First, Waits, CanRun, LeavesAlone, AfterFirstWait;
    FramesTakeTurns(p, screen, Spot(0, 0), Waits(WAIT) + AfterFirstWait());
  }

  // n interrupts, each with a call of the tasklet.
  method Wait(e: Engine, n: nat, ghost start: State, ghost cs: seq<Cmd>)
    requires e.Valid() && CanRun(start, cs) && e.View() == Run(start, cs)
    modifies e.pool, e.screen
    ensures e.Valid() && CanRun(start, cs + Waits(n)) && e.View() == Run(start, cs + Waits(n))
  {
    hide Run, Do, CanRun;
    assert cs + Waits(0) == cs;
    var i := 0;
    while i < n
      invariant 0 <= i <= n && e.Valid()
      invariant CanRun(start, cs + Waits(i)) && e.View() == Run(start, cs + Waits(i))
    {
      OneMore(start, cs + Waits(i), Call);
      assert cs + Waits(i) + [Call] == cs + Waits(i + 1);
      e.RtcTasklet();
      i := i + 1;
    }
  }

  // main: the frames, then a character of its own that it synchronises with location
  // 40, then a removal.  `mid` is the screen after the first wait, `list` the blink list at
  // the end.
  method Animate(k: Files, screen: array<byte>, name0: seq<byte>, name1: seq<byte>)
    returns (halted: bool, ghost mid: seq<byte>, ghost list: seq<Blink>)
    requires k.Valid() && screen.Length == SCREEN && Without(name0, NUL) && Without(name1, NUL)
    requires Regular(k, name0) && Regular(k, name1)
    requires Lookup(k.img, name0, 0).Some? && Lookup(k.img, name1, 0).Some? ==> FitsScreen(PictureOf(k, name0, name1))
    modifies k`dt, k.fd, screen
    ensures k.Valid() && (halted <==> !BothOpen(k.img, old(k.Table()), name0, name1))
    ensures !halted ==>
      var p := PictureOf(k, name0, name1);
      && |mid| == SCREEN
      && (forall s {:trigger Drawn(p, s)} :: Drawn(p, s) ==>
            CharAt(s) < SCREEN && mid[CharAt(s)] == Frame(p, s, WAIT))
      && (forall s {:trigger Drawn(p, s)} :: Drawn(p, s) && CharAt(s) != 2 * EXTRA && CharAt(s) != 2 * WAIT ==>
            CharAt(s) < SCREEN && screen[CharAt(s)] == Frame(p, s, 3 * WAIT + LAST_WAIT))
      && (Drawn(p, Spot(0, 0)) ==> TookOver(list))
  {
    hide SpotsFrom, Drawn, FitsScreen, Rows, FileText, Do, Run, CanRun, Frame, TwoFree, Waits, TookOver;
    ghost var start := State([], screen[..]);
    mid, list := screen[..], [];
    var e := new Engine(screen);
    if Lookup(k.img, name0, 0).Some? && Lookup(k.img, name1, 0).Some? { SmallLocations(PictureOf(k, name0, name1)); }
    halted := AddFrames(k, e, name0, name1);
    if halted { return; }
    ghost var p := PictureOf(k, name0, name1);
    ghost var cs := Adds(p, SpotsFrom(p, 0, 0));
    Wait(e, WAIT, start, cs);
    EverySpot(p, start.screen, WAIT);
    mid := screen[..];
    RestOfMain(e, start, cs + Waits(WAIT));
    list := e.Values();
    EverySpotAtTheEnd(p, start.screen);
    if Drawn(p, Spot(0, 0)) { SyncTakesOver(p, start.screen); }
    assert cs + Waits(WAIT) + AfterFirstWait() == cs + (Waits(WAIT) + AfterFirstWait());
  }

  // One ioctl.
  method Issue(e: Engine, c: Cmd, ghost start: State, ghost cs: seq<Cmd>)
    requires e.Valid() && CanRun(start, cs) && e.View() == Run(start, cs) && (c.Add? ==> c.b.location != 0)
    modifies e, e.pool, e.screen
    ensures e.Valid() && CanRun(start, cs + [c]) && e.View() == Run(start, cs + [c])
  {
    hide Run, Do, CanRun;
    OneMore(start, cs, c);
    var _ := e.Handle(c);
  }

  method RestOfMain(e: Engine, ghost start: State, ghost cs: seq<Cmd>)
    requires e.Valid() && CanRun(start, cs) && e.View() == Run(start, cs)
    modifies e, e.pool, e.screen
    ensures e.Valid() && CanRun(start, cs + AfterFirstWait()) && e.View() == Run(start, cs + AfterFirstWait())
  {
    hide Run, CanRun, Waits, Engine.Valid, Engine.View;
    ghost var c1 := cs + [Add(Extra())];
    Issue(e, Add(Extra()), start, cs);
    ghost var c2 := c1 + Waits(WAIT);
    Wait(e, WAIT, start, c1);
    ghost var c3 := c2 + [Sync(OFFSET, EXTRA)];
    Issue(e, Sync(OFFSET, EXTRA), start, c2);
    ghost var c4 := c3 + Waits(WAIT);
    Wait(e, WAIT, start, c3);
    ghost var c5 := c4 + [Remove(WAIT)];
    Issue(e, Remove(WAIT), start, c4);
    Wait(e, LAST_WAIT, start, c5);
    assert c5 + Waits(LAST_WAIT) == cs + AfterFirstWait();
  }
}
