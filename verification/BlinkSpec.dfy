// What the blink engine of fish/blink.S means: a list of blinking characters, each
// with a 16-bit countdown, and the screen bytes they write.
module BlinkSpec {
  import opened CString
  import opened Arithmetic

  type u16 = x: int | 0 <= x < 0x1_0000

  const SPOTS := 2000            // screen locations, and slots in the pool
  const SCREEN := 4000           // a location's character is at twice its number

  datatype Blink = Blink(location: u16, onChar: byte, offChar: byte, onLength: u16, offLength: u16,
                         countdown: u16, status: u16)

  // decw, and the signed 16-bit test that jg makes on the result.
  function Dec(c: u16): u16 { if c == 0 then 0xFFFF else c - 1 }

  predicate Positive(c: u16) { 0 < c < 0x8000 }

  function Flip(status: u16): u16 { if status % 2 == 1 then status - 1 else status + 1 }

  predicate Toggles(b: Blink) { !Positive(Dec(b.countdown)) }

  // One tasklet call, for one character.
  function Tick(b: Blink): (r: Blink)
    ensures r.location == b.location && r.onChar == b.onChar && r.offChar == b.offChar
  {
    if !Toggles(b) then b.(countdown := Dec(b.countdown))
    else b.(countdown := if b.status % 2 == 1 then b.offLength else b.onLength, status := Flip(b.status))
  }

  // The character it writes when it toggles.
  function Shown(b: Blink): byte { if b.status % 2 == 1 then b.onChar else b.offChar }

  // ---- The closed form ----

  // A length is taken as it is up to 0x8000; 0 and everything above runs out at once.
  function Effective(length: u16): (n: nat)
    ensures n > 0
  { if 1 <= length <= 0x8000 then length else 1 }

  function Period(b: Blink): (p: nat)
    ensures p >= 2
  { Effective(b.onLength) + Effective(b.offLength) }

  // A character as it is added: on, with its whole on-time ahead.
  function Begun(b: Blink): Blink { b.(countdown := b.onLength, status := 1) }

  // The state m ticks into a period.
  function AtPhase(b: Blink, m: nat): Blink
    requires m < Period(b)
  {
    var on := Effective(b.onLength);
    if m == 0 then Begun(b)
    else if m < on then b.(countdown := b.onLength - m, status := 1)
    else if m == on then b.(countdown := b.offLength, status := 0)
    else b.(countdown := b.offLength - (m - on), status := 0)
  }

  ghost function Ticks(b: Blink, t: nat): Blink {
    if t == 0 then b else Tick(Ticks(b, t - 1))
  }

  lemma PhaseStep(b: Blink, m: nat)
    requires m < Period(b)
    ensures Tick(AtPhase(b, m)) == AtPhase(b, if m + 1 == Period(b) then 0 else m + 1)
  {
  }

  // After t calls a character is t mod (on + off) ticks into its period, whatever
  // its lengths.
  lemma {:induction false} BlinkIsPeriodic(b: Blink, t: nat)
    ensures Ticks(Begun(b), t) == AtPhase(b, t % Period(b))
  {
    hide AtPhase, Tick, Period;
    if t > 0 {
      BlinkIsPeriodic(b, t - 1);
      PhaseStep(b, (t - 1) % Period(b));
      NextRemainder(t - 1, Period(b));
    } else {
      ZeroPhase(b);
    }
  }

  lemma ZeroPhase(b: Blink)
    ensures 0 % Period(b) == 0 && AtPhase(b, 0) == Begun(b)
  {
  }

  // Read off for lengths in 1..32767: on for the first on ticks of each period.
  lemma OnExactlyInTheFirstPart(b: Blink, t: nat)
    requires 1 <= b.onLength < 0x8000 && 1 <= b.offLength < 0x8000
    ensures var m := t % (b.onLength + b.offLength); var s := Ticks(Begun(b), t);
      && (s.status == 1 <==> m < b.onLength) && s.status <= 1
      && s.countdown == (if m < b.onLength then b.onLength - m else b.onLength + b.offLength - m)
      && Shown(s) == (if m < b.onLength then b.onChar else b.offChar)
  {
    BlinkIsPeriodic(b, t);
  }

  ghost predicate InRange(b: Blink) { 1 <= b.onLength <= 0x8000 && 1 <= b.offLength <= 0x8000 }

  // On in the first part of the period and off in the second, t ticks after the start.
  ghost predicate AsGiven(b: Blink, t: nat)
    requires b.onLength + b.offLength > 0
  {
    Ticks(Begun(b), t).status == 1 <==> t % (b.onLength + b.offLength) < b.onLength
  }

  lemma EarlyPhase(b: Blink, t: nat)
    requires t <= Period(b) && b.onLength + b.offLength > 0 && t <= b.onLength + b.offLength
    ensures Ticks(Begun(b), t).status == AtPhase(b, if t < Period(b) then t else 0).status
    ensures AsGiven(b, t) <==>
      (Ticks(Begun(b), t).status == 1 <==> (if t < b.onLength + b.offLength then t else 0) < b.onLength)
  {
    BlinkIsPeriodic(b, t);
    SmallRemainder(t, Period(b));
    SmallRemainder(t, b.onLength + b.offLength);
  }

  // Outside the range the first departure comes early.
  lemma DepartsEarly(b: Blink) returns (t: nat)
    requires !InRange(b) && b.onLength + b.offLength > 0
    ensures !AsGiven(b, t)
  {
    hide Ticks, AsGiven;
    t := if b.onLength == 0 then 0 else if b.onLength > 0x8000 then 1
      else if b.offLength == 0 then b.onLength else b.onLength + 1;
    EarlyPhase(b, t);
  }

  // The exact condition for the lengths to mean what they say, at all times.
  lemma LengthsCountIff(b: Blink)
    requires b.onLength + b.offLength > 0
    ensures (forall t: nat :: AsGiven(b, t)) <==> InRange(b)
  {
    if InRange(b) {
      forall t: nat ensures AsGiven(b, t) { BlinkIsPeriodic(b, t); }
    } else {
      var t := DepartsEarly(b);
      assert !AsGiven(b, t);
    }
  }

  // ---- The engine as a list and a screen ----

  datatype State = State(list: seq<Blink>, screen: seq<byte>)

  datatype Cmd =
    | Call                                // mp1_rtc_tasklet
    | Add(b: Blink)
    | Remove(location: u16)
    | Sync(source: u16, target: u16)
    | Find(location: u16)

  ghost predicate Good(s: State) {
    && |s.screen| == SCREEN && |s.list| <= SPOTS
    && forall i {:trigger s.list[i]} :: 0 <= i < |s.list| ==> 1 <= s.list[i].location < SPOTS
  }

  // The first place in the list with this location, or its length.
  function First(list: seq<Blink>, location: u16): (i: nat)
    ensures i <= |list|
    ensures i < |list| ==> list[i].location == location
    ensures forall j :: 0 <= j < i ==> list[j].location != location
  {
    if list == [] || list[0].location == location then 0 else 1 + First(list[1..], location)
  }

  // Some node has the location.
  ghost predicate Occupied(list: seq<Blink>, location: u16) {
    exists i :: 0 <= i < |list| && list[i].location == location
  }

  // Node i is the first that has it.
  ghost predicate IsFirst(list: seq<Blink>, location: u16, i: nat) {
    i < |list| && list[i].location == location && forall j :: 0 <= j < i ==> list[j].location != location
  }

  // A sequence without its i-th element.
  function RemoveAt<T>(s: seq<T>, i: nat): (r: seq<T>)
    requires i < |s|
    ensures |r| == |s| - 1
    ensures forall k {:trigger r[k]} :: 0 <= k < |r| ==> r[k] == s[if k < i then k else k + 1]
  {
    s[..i] + s[i + 1..]
  }

  lemma RemoveAtParts<T>(s: seq<T>, i: nat)
    requires i < |s|
    ensures RemoveAt(s, i) == s[..i] + s[i + 1..]
  {
  }

  lemma FirstIsFirst(list: seq<Blink>, location: u16)
    ensures First(list, location) < |list| <==> Occupied(list, location)
    ensures First(list, location) < |list| ==> IsFirst(list, location, First(list, location))
  {
  }

  function Poke(screen: seq<byte>, location: u16, c: byte): (r: seq<byte>)
    requires |screen| == SCREEN && location < SPOTS
    ensures |r| == SCREEN
  {
    screen[2 * location := c]
  }

  // A tasklet call walks the list from the front.
  ghost function CallScreen(list: seq<Blink>, screen: seq<byte>): (r: seq<byte>)
    requires |screen| == SCREEN && forall i {:trigger list[i]} :: 0 <= i < |list| ==> list[i].location < SPOTS
    ensures |r| == SCREEN
  {
    if list == [] then screen
    else
      var b := list[0];
      CallScreen(list[1..], if Toggles(b) then Poke(screen, b.location, Shown(Tick(b))) else screen)
  }

  ghost function CallList(list: seq<Blink>): (r: seq<Blink>)
    ensures |r| == |list| && forall i {:trigger r[i]} :: 0 <= i < |r| ==> r[i] == Tick(list[i])
  {
    seq(|list|, i requires 0 <= i < |list| => Tick(list[i]))
  }

  // The walk after one more node.
  lemma CallStep(list: seq<Blink>, i: nat, screen: seq<byte>)
    requires i < |list| && |screen| == SCREEN
    requires forall j {:trigger list[j]} :: 0 <= j < |list| ==> list[j].location < SPOTS
    ensures CallList(list[..i + 1]) + list[i + 1..] == (CallList(list[..i]) + list[i..])[i := Tick(list[i])]
    ensures CallScreen(list[i..], screen) ==
      CallScreen(list[i + 1..],
                 if Toggles(list[i]) then Poke(screen, list[i].location, Shown(Tick(list[i]))) else screen)
  {
    assert list[i..][0] == list[i] && list[i..][1..] == list[i + 1..];
    hide Tick;
  }

  function Synced(from: Blink, to: Blink): Blink {
    to.(onLength := from.onLength, offLength := from.offLength, countdown := from.countdown, status := from.status)
  }

  // The state after a command, and the value it returns.
  ghost function Do(s: State, c: Cmd): (r: (State, int))
    requires Good(s) && (c.Add? ==> c.b.location != 0)
  {
    match c
    case Call => (State(CallList(s.list), CallScreen(s.list, s.screen)), 0)
    case Add(b) =>
      if b.location >= SPOTS || |s.list| == SPOTS then (s, -1)
      else (State([Begun(b)] + s.list, Poke(s.screen, b.location, b.onChar)), 0)
    case Remove(location) =>
      var i := First(s.list, location);
      if i == |s.list| then (s, -1) else (s.(list := RemoveAt(s.list, i)), 0)
    case Sync(source, target) =>
      var i, j := First(s.list, source), First(s.list, target);
      if i == |s.list| || j == |s.list| then (s, -1)
      else (State(s.list[j := Synced(s.list[i], s.list[j])], Poke(s.screen, target, s.list[j].offChar)), 0)
    case Find(location) => (s, if First(s.list, location) == |s.list| then -1 else 0)
  }

  lemma DoKeepsGood(s: State, c: Cmd)
    requires Good(s) && (c.Add? ==> c.b.location != 0)
    ensures Good(Do(s, c).0)
  {
  }

  // ---- Whole runs ----

  ghost predicate CanRun(s: State, cs: seq<Cmd>) {
    Good(s) && forall i :: 0 <= i < |cs| && cs[i].Add? ==> cs[i].b.location != 0
  }

  ghost function Run(s: State, cs: seq<Cmd>): (r: State)
    requires CanRun(s, cs)
    ensures Good(r)
    decreases |cs|
  {
    if cs == [] then s
    else
      DoKeepsGood(s, cs[0]);
      assert forall i :: 0 <= i < |cs| - 1 ==> cs[1..][i] == cs[i + 1];
      Run(Do(s, cs[0]).0, cs[1..])
  }

  lemma {:induction false} RunAppends(s: State, a: seq<Cmd>, b: seq<Cmd>)
    requires CanRun(s, a + b)
    ensures CanRun(s, a) && CanRun(Run(s, a), b) && Run(s, a + b) == Run(Run(s, a), b)
    decreases |a|
  {
    hide Do;
    var c := a + b;
    assert forall i :: 0 <= i < |a| ==> c[i] == a[i];
    assert forall i :: 0 <= i < |b| ==> b[i] == c[|a| + i];
    if a == [] {
      assert c == b;
    } else {
      DoKeepsGood(s, a[0]);
      assert c[1..] == a[1..] + b;
      assert forall i :: 0 <= i < |c| - 1 ==> c[1..][i] == c[i + 1];
      RunAppends(Do(s, a[0]).0, a[1..], b);
    }
  }

  ghost function Calls(cs: seq<Cmd>): nat {
    if cs == [] then 0 else (if cs[0].Call? then 1 else 0) + Calls(cs[1..])
  }

  // A command that adds, removes or re-synchronises at this location.
  predicate Touches(c: Cmd, location: u16) {
    match c
    case Add(b) => b.location == location
    case Remove(l) => l == location
    case Sync(source, target) => target == location
    case _ => false
  }

  ghost predicate Untouched(cs: seq<Cmd>, location: u16) {
    forall i :: 0 <= i < |cs| ==> !Touches(cs[i], location)
  }

  // The first character at this location, the one that the commands work on, is v.
  ghost predicate FirstIs(list: seq<Blink>, location: u16, v: Blink) {
    var i := First(list, location);
    i < |list| && list[i] == v
  }

  lemma FirstIsAt(list: seq<Blink>, location: u16, i: nat)
    requires i < |list| && list[i].location == location && forall j :: 0 <= j < i ==> list[j].location != location
    ensures First(list, location) == i
  {
    var k := First(list, location);
    assert k < |list| ==> list[k].location == location;
  }

  lemma RemoveElsewhere(list: seq<Blink>, l: u16, location: u16)
    requires l != location && First(list, l) < |list| && First(list, location) < |list|
    ensures FirstIs(RemoveAt(list, First(list, l)), location, list[First(list, location)])
  {
    hide First, RemoveAt;
    var k, i := First(list, l), First(list, location);
    FirstIsAt(RemoveAt(list, k), location, if k < i then i - 1 else i);
  }

  lemma CallElsewhere(list: seq<Blink>, location: u16)
    requires First(list, location) < |list|
    ensures FirstIs(CallList(list), location, Tick(list[First(list, location)]))
  {
    hide First, Tick;
    FirstIsAt(CallList(list), location, First(list, location));
  }

  lemma ReplaceElsewhere(list: seq<Blink>, k: nat, b: Blink, location: u16)
    requires k < |list| && First(list, location) < |list|
    requires list[k].location == b.location != location
    ensures FirstIs(list[k := b], location, list[First(list, location)])
  {
    hide First;
    FirstIsAt(list[k := b], location, First(list, location));
  }

  lemma UntouchedStep(s: State, c: Cmd, location: u16, v: Blink)
    requires Good(s) && (c.Add? ==> c.b.location != 0)
    requires FirstIs(s.list, location, v) && !Touches(c, location)
    ensures FirstIs(Do(s, c).0.list, location, if c.Call? then Tick(v) else v)
  {
    hide Tick, CallScreen, Poke, FirstIs;
    assert First(s.list, location) < |s.list| && v == s.list[First(s.list, location)] by {
      FirstIsMeans(s.list, location, v);
    }
    match c {
      case Call => CallElsewhere(s.list, location);
      case Add(b) => AddElsewhere(s.list, Begun(b), location);
      case Remove(l) =>
        if First(s.list, l) < |s.list| { RemoveElsewhere(s.list, l, location); }
      case Sync(source, target) =>
        var i, j := First(s.list, source), First(s.list, target);
        if i < |s.list| && j < |s.list| { ReplaceElsewhere(s.list, j, Synced(s.list[i], s.list[j]), location); }
      case Find(_) =>
    }
  }

  lemma FirstIsMeans(list: seq<Blink>, location: u16, v: Blink)
    requires FirstIs(list, location, v)
    ensures First(list, location) < |list| && v == list[First(list, location)]
  {
  }

  lemma AddElsewhere(list: seq<Blink>, b: Blink, location: u16)
    requires First(list, location) < |list| && b.location != location
    ensures FirstIs([b] + list, location, list[First(list, location)])
  {
    hide First;
    FirstIsAt([b] + list, location, First(list, location) + 1);
  }

  // Whatever else happens, an untouched character does nothing but tick.
  lemma {:induction false} UntouchedOnlyTicks(s: State, cs: seq<Cmd>, location: u16, v: Blink, t: nat)
    requires CanRun(s, cs) && Untouched(cs, location) && FirstIs(s.list, location, Ticks(v, t))
    ensures FirstIs(Run(s, cs).list, location, Ticks(v, t + Calls(cs)))
    decreases |cs|
  {
    hide Do, First, Tick;
    if cs != [] {
      UntouchedStep(s, cs[0], location, Ticks(v, t));
      DoKeepsGood(s, cs[0]);
      assert forall i :: 0 <= i < |cs| - 1 ==> cs[1..][i] == cs[i + 1];
      UntouchedOnlyTicks(Do(s, cs[0]).0, cs[1..], location, v, if cs[0].Call? then t + 1 else t);
    }
  }

  // ---- What the screen shows of a character that is alone at its location ----

  ghost predicate Alone(list: seq<Blink>, location: u16) {
    forall i, j :: 0 <= i < j < |list| && list[i].location == location ==> list[j].location != location
  }

  // ---- Removal ----

  lemma OneCommandRun(s: State, c: Cmd)
    requires Good(s) && (c.Add? ==> c.b.location != 0)
    ensures CanRun(s, [c]) && Run(s, [c]) == Do(s, c).0
  {
    DoKeepsGood(s, c);
    assert [c][1..] == [];
    hide Do;
  }

  // What a remove has to do to the list.
  lemma RemovePlan(s: State, location: u16) returns (i: nat)
    requires Good(s)
    ensures i == First(s.list, location) <= |s.list|
    ensures if i == |s.list| then Do(s, Remove(location)) == (s, -1) && !Occupied(s.list, location)
            else && Do(s, Remove(location)) == (s.(list := RemoveAt(s.list, i)), 0) && Occupied(s.list, location)
                 && IsFirst(s.list, location, i) && RemoveAt(s.list, i) == s.list[..i] + s.list[i + 1..]
  {
    FirstIsFirst(s.list, location);
    i := First(s.list, location);
  }

  // A remove takes the first node of the location out, keeps the others and their
  // order, and draws nothing; without such a node it changes nothing.
  lemma RemoveMeans(s: State, location: u16) returns (i: nat)
    requires Good(s)
    ensures CanRun(s, [Remove(location)]) && Run(s, [Remove(location)]).screen == s.screen
    ensures !Occupied(s.list, location) ==> Run(s, [Remove(location)]).list == s.list
    ensures Occupied(s.list, location) ==>
      IsFirst(s.list, location, i) && Run(s, [Remove(location)]).list == s.list[..i] + s.list[i + 1..]
  {
    OneCommandRun(s, Remove(location));
    FirstIsFirst(s.list, location);
    i := First(s.list, location);
  }

  // A location that had one node has none afterwards, and every other location has
  // the nodes that it had.
  lemma LoneIsGone(s: State, location: u16)
    requires Good(s) && Alone(s.list, location)
    ensures CanRun(s, [Remove(location)]) && !Occupied(Run(s, [Remove(location)]).list, location)
    ensures forall l :: l != location ==> (Occupied(Run(s, [Remove(location)]).list, l) <==> Occupied(s.list, l))
  {
    hide Run, CanRun;
    var i := RemoveMeans(s, location);
    if Occupied(s.list, location) { OthersStay(s.list, location, i); }
  }

  lemma OthersStay(list: seq<Blink>, location: u16, i: nat)
    requires Alone(list, location) && IsFirst(list, location, i)
    ensures !Occupied(list[..i] + list[i + 1..], location)
    ensures forall l :: l != location ==> (Occupied(list[..i] + list[i + 1..], l) <==> Occupied(list, l))
  {
    var rest := list[..i] + list[i + 1..];
    assert forall k {:trigger rest[k]} :: 0 <= k < |rest| ==> rest[k] == list[if k < i then k else k + 1];
    forall l | l != location && Occupied(list, l) ensures Occupied(rest, l) {
      var k :| 0 <= k < |list| && list[k].location == l;
      assert rest[if k < i then k else k - 1] == list[k];
    }
  }

  // An add at a free location and a remove there leave the list as it was.
  lemma RemoveUndoesAdd(s: State, b: Blink)
    requires Good(s) && |s.list| < SPOTS && 0 < b.location < SPOTS && !Occupied(s.list, b.location)
    ensures CanRun(s, [Add(b), Remove(b.location)]) && Run(s, [Add(b), Remove(b.location)]).list == s.list
  {
    OneCommandRun(s, Add(b));
    var t := Run(s, [Add(b)]);
    assert t.list == [Begun(b)] + s.list;
    assert IsFirst(t.list, b.location, 0);
    assert Occupied(t.list, b.location);
    var i := RemoveMeans(t, b.location);
    assert i == 0;
    assert [Add(b)] + [Remove(b.location)] == [Add(b), Remove(b.location)];
    assert CanRun(s, [Add(b)] + [Remove(b.location)]);
    RunAppends(s, [Add(b)], [Remove(b.location)]);
  }

  ghost predicate ShowsAlone(s: State, location: u16) {
    && Good(s) && Alone(s.list, location) && location < SPOTS
    && First(s.list, location) < |s.list|
    && s.screen[2 * location] == Shown(s.list[First(s.list, location)])
  }

  lemma {:induction false} CallPokes(list: seq<Blink>, screen: seq<byte>, location: u16)
    requires |screen| == SCREEN && location < SPOTS
    requires forall i {:trigger list[i]} :: 0 <= i < |list| ==> list[i].location < SPOTS
    requires Alone(list, location)
    ensures var i := First(list, location);
      CallScreen(list, screen)[2 * location] ==
        if i < |list| && Toggles(list[i]) then Shown(Tick(list[i])) else screen[2 * location]
  {
    if list != [] {
      var b := list[0];
      assert forall i, j :: 0 <= i < j < |list[1..]| ==> list[1..][i] == list[i + 1] && list[1..][j] == list[j + 1];
      CallPokes(list[1..], if Toggles(b) then Poke(screen, b.location, Shown(Tick(b))) else screen, location);
    }
  }

  lemma RemoveKeepsAlone(list: seq<Blink>, k: nat, location: u16)
    requires k < |list| && Alone(list, location)
    ensures Alone(RemoveAt(list, k), location)
  {
    hide RemoveAt;
    var t := RemoveAt(list, k);
    forall i, j | 0 <= i < j < |t| && t[i].location == location ensures t[j].location != location {
      assert t[i] == list[if i < k then i else i + 1] && t[j] == list[if j < k then j else j + 1];
    }
  }

  lemma AddKeepsAlone(list: seq<Blink>, b: Blink, location: u16)
    requires Alone(list, location) && b.location != location
    ensures Alone([b] + list, location)
  {
    var t := [b] + list;
    forall i, j | 0 <= i < j < |t| && t[i].location == location ensures t[j].location != location {
      assert t[i] == list[i - 1] && t[j] == list[j - 1];
    }
  }

  lemma ReplaceKeepsAlone(list: seq<Blink>, k: nat, b: Blink, location: u16)
    requires k < |list| && Alone(list, location) && b.location == list[k].location
    ensures Alone(list[k := b], location)
  {
  }

  // A command elsewhere leaves the character alone at its location.
  lemma AloneStep(s: State, c: Cmd, location: u16)
    requires Good(s) && Alone(s.list, location) && (c.Add? ==> c.b.location != 0) && !Touches(c, location)
    ensures Alone(Do(s, c).0.list, location)
  {
    hide CallScreen, Alone, Poke, Good, RemoveAt, First;
    match c {
      case Call => TicksKeepAlone(s.list, location);
      case Add(b) => AddKeepsAlone(s.list, Begun(b), location);
      case Remove(l) =>
        if First(s.list, l) < |s.list| { RemoveKeepsAlone(s.list, First(s.list, l), location); }
      case Sync(source, target) =>
        var i, j := First(s.list, source), First(s.list, target);
        if i < |s.list| && j < |s.list| { ReplaceKeepsAlone(s.list, j, Synced(s.list[i], s.list[j]), location); }
      case Find(_) =>
    }
  }

  lemma TicksKeepAlone(list: seq<Blink>, location: u16)
    requires Alone(list, location)
    ensures Alone(CallList(list), location)
  {
    hide Tick;
  }

  // And it leaves its cell alone, except that a call pokes it when it toggles.
  lemma CellStep(s: State, c: Cmd, location: u16)
    requires Good(s) && Alone(s.list, location) && location < SPOTS && First(s.list, location) < |s.list|
    requires (c.Add? ==> c.b.location != 0) && !Touches(c, location)
    ensures var v := s.list[First(s.list, location)];
      Do(s, c).0.screen[2 * location] ==
        if c.Call? && Toggles(v) then Shown(Tick(v)) else s.screen[2 * location]
  {
    hide CallScreen, Tick, Toggles;
    if c.Call? { CallPokes(s.list, s.screen, location); }
    hide Alone;
  }

  lemma SlowShowsTheSame(v: Blink)
    requires !Toggles(v)
    ensures Shown(Tick(v)) == Shown(v)
  {
  }

  lemma ShowsAloneStep(s: State, c: Cmd, location: u16)
    requires ShowsAlone(s, location) && (c.Add? ==> c.b.location != 0) && !Touches(c, location)
    ensures ShowsAlone(Do(s, c).0, location)
  {
    DoKeepsGood(s, c);
    AloneStep(s, c, location);
    CellStep(s, c, location);
    var v := s.list[First(s.list, location)];
    UntouchedStep(s, c, location, v);
    hide Do, First, Tick, Toggles, Shown, Alone;
    if !Toggles(v) { SlowShowsTheSame(v); }
  }

  lemma {:induction false} ShowsAloneRun(s: State, cs: seq<Cmd>, location: u16)
    requires CanRun(s, cs) && Untouched(cs, location) && ShowsAlone(s, location)
    ensures ShowsAlone(Run(s, cs), location)
    decreases |cs|
  {
    hide Do, ShowsAlone;
    if cs != [] {
      ShowsAloneStep(s, cs[0], location);
      DoKeepsGood(s, cs[0]);
      assert forall i :: 0 <= i < |cs| - 1 ==> cs[1..][i] == cs[i + 1];
      ShowsAloneRun(Do(s, cs[0]).0, cs[1..], location);
    }
  }

  // From a state where the character has just begun and is alone at its location.
  lemma BlinksOn(s: State, b: Blink, cs: seq<Cmd>)
    requires CanRun(s, cs) && Untouched(cs, b.location)
    requires FirstIs(s.list, b.location, Ticks(Begun(b), 0)) && ShowsAlone(s, b.location)
    ensures FirstIs(Run(s, cs).list, b.location, AtPhase(b, Calls(cs) % Period(b)))
    ensures ShowsAlone(Run(s, cs), b.location)
  {
    hide *;
    UntouchedOnlyTicks(s, cs, b.location, Begun(b), 0);
    ShowsAloneRun(s, cs, b.location);
    BlinkIsPeriodic(b, Calls(cs));
  }

  // The main result: a character added at a free location is, after any commands
  // that leave that location alone, t mod (on + off) ticks into its period, where t
  // counts the tasklet calls, and its cell on the screen shows the matching character.
  lemma BlinksFromItsAdd(s: State, b: Blink, cs: seq<Cmd>)
    requires CanRun(s, cs) && |s.list| < SPOTS && 0 < b.location < SPOTS
    requires First(s.list, b.location) == |s.list| && Untouched(cs, b.location)
    ensures CanRun(Do(s, Add(b)).0, cs)
    ensures var r, v := Run(Do(s, Add(b)).0, cs), AtPhase(b, Calls(cs) % Period(b));
      && FirstIs(r.list, b.location, v) && Alone(r.list, b.location)
      && r.screen[2 * b.location] == Shown(v)
  {
    DoKeepsGood(s, Add(b));
    JustAdded(s, b);
    var s1 := Do(s, Add(b)).0;
    BlinksOn(s1, b, cs);
    hide Do, Run, First, FirstIs, Calls;
    ShownAlone(Run(s1, cs), b.location, AtPhase(b, Calls(cs) % Period(b)));
  }

  lemma ShownAlone(r: State, location: u16, v: Blink)
    requires FirstIs(r.list, location, v) && ShowsAlone(r, location)
    ensures Alone(r.list, location) && |r.screen| == SCREEN && location < SPOTS && r.screen[2 * location] == Shown(v)
  {
  }

  lemma JustAdded(s: State, b: Blink)
    requires Good(s) && |s.list| < SPOTS && 0 < b.location < SPOTS && First(s.list, b.location) == |s.list|
    ensures var s1 := Do(s, Add(b)).0;
      FirstIs(s1.list, b.location, Ticks(Begun(b), 0)) && ShowsAlone(s1, b.location)
  {
    DoKeepsGood(s, Add(b));
    var t := [Begun(b)] + s.list;
    assert forall j :: 1 <= j < |t| ==> t[j] == s.list[j - 1];
  }

  // ---- Synchronised characters stay in step ----

  predicate InStep(v: Blink, w: Blink) {
    v.onLength == w.onLength && v.offLength == w.offLength && v.countdown == w.countdown && v.status == w.status
  }

  lemma {:induction false} TicksKeepStep(v: Blink, w: Blink, t: nat)
    requires InStep(v, w)
    ensures InStep(Ticks(v, t), Ticks(w, t))
  {
    if t > 0 { TicksKeepStep(v, w, t - 1); }
  }

  // A successful sync leaves source and target in step; source itself is unchanged.
  lemma SyncPutsInStep(s: State, source: u16, target: u16)
    requires Good(s) && source != target && Do(s, Sync(source, target)).1 == 0
    ensures var t, i, j := Do(s, Sync(source, target)).0.list, First(s.list, source), First(s.list, target);
      && i < |s.list| && j < |s.list|
      && FirstIs(t, source, s.list[i]) && FirstIs(t, target, Synced(s.list[i], s.list[j]))
  {
    var t, i, j := Do(s, Sync(source, target)).0.list, First(s.list, source), First(s.list, target);
    hide First;
    FirstIsAt(t, source, i);
    FirstIsAt(t, target, j);
  }

  lemma StayInStep(s: State, source: u16, target: u16, v: Blink, w: Blink, cs: seq<Cmd>)
    requires CanRun(s, cs) && Untouched(cs, source) && Untouched(cs, target)
    requires FirstIs(s.list, source, v) && FirstIs(s.list, target, w) && InStep(v, w)
    ensures var list := Run(s, cs).list;
      && First(list, source) < |list| && First(list, target) < |list|
      && InStep(list[First(list, source)], list[First(list, target)])
  {
    hide Do, First, Tick, Run, Untouched, CanRun;
    UntouchedOnlyTicks(s, cs, source, v, 0);
    UntouchedOnlyTicks(s, cs, target, w, 0);
    TicksKeepStep(v, w, Calls(cs));
  }

  lemma SyncedStayInStep(s: State, source: u16, target: u16, cs: seq<Cmd>)
    requires CanRun(s, cs) && source != target && Do(s, Sync(source, target)).1 == 0
    requires Untouched(cs, source) && Untouched(cs, target)
    ensures CanRun(Do(s, Sync(source, target)).0, cs)
    ensures var list := Run(Do(s, Sync(source, target)).0, cs).list;
      && First(list, source) < |list| && First(list, target) < |list|
      && InStep(list[First(list, source)], list[First(list, target)])
  {
    SyncPutsInStep(s, source, target);
    DoKeepsGood(s, Sync(source, target));
    hide First, Run, Do, FirstIs;
    StayInStep(Do(s, Sync(source, target)).0, source, target, s.list[First(s.list, source)],
      Synced(s.list[First(s.list, source)], s.list[First(s.list, target)]), cs);
  }

  // ---- What the screen shows of the target after a sync ----

  // The character is the off one whatever the status, so it is the matching one
  // exactly when the source is off or the target's two characters are the same.
  lemma SyncShowsIff(s: State, source: u16, target: u16)
    requires Good(s) && Do(s, Sync(source, target)).1 == 0 && Alone(s.list, target)
    ensures ShowsAlone(Do(s, Sync(source, target)).0, target) <==>
      var i, j := First(s.list, source), First(s.list, target);
      s.list[i].status % 2 == 0 || s.list[j].onChar == s.list[j].offChar
  {
    var i, j := First(s.list, source), First(s.list, target);
    var t := Do(s, Sync(source, target)).0;
    DoKeepsGood(s, Sync(source, target));
    ReplaceKeepsAlone(s.list, j, Synced(s.list[i], s.list[j]), target);
    SyncedFirst(s.list, i, j, target);
    hide First, Alone, Good;
  }

  lemma SyncedFirst(list: seq<Blink>, i: nat, j: nat, target: u16)
    requires i < |list| && j < |list| && j == First(list, target)
    ensures First(list[j := Synced(list[i], list[j])], target) == j
  {
    hide First;
    FirstIsAt(list[j := Synced(list[i], list[j])], target, j);
  }

  // A call on which a character toggles shows the matching one, whatever was there.
  lemma ToggleShows(s: State, location: u16)
    requires Good(s) && Alone(s.list, location) && location < SPOTS && First(s.list, location) < |s.list|
    requires Toggles(s.list[First(s.list, location)])
    ensures ShowsAlone(Do(s, Call).0, location)
  {
    DoKeepsGood(s, Call);
    AloneStep(s, Call, location);
    CellStep(s, Call, location);
    CallElsewhere(s.list, location);
    hide Do, First, Tick, Toggles, Shown, Alone;
  }

  // A character whose cell holds its off character, from the outside.
  ghost predicate HoldsOff(s: State, location: u16, v: Blink) {
    && Good(s) && Alone(s.list, location) && location < SPOTS && FirstIs(s.list, location, v)
    && s.screen[2 * location] == v.offChar
  }

  lemma HoldsOffShows(s: State, location: u16, v: Blink)
    requires HoldsOff(s, location, v)
    ensures ShowsAlone(s, location) <==> v.status % 2 == 0 || v.onChar == v.offChar
  {
    hide First;
  }

  lemma HoldsOffStep(s: State, c: Cmd, location: u16, v: Blink)
    requires HoldsOff(s, location, v) && (c.Add? ==> c.b.location != 0) && !Touches(c, location)
    ensures c.Call? && Toggles(v) ==> ShowsAlone(Do(s, c).0, location)
    ensures !c.Call? ==> HoldsOff(Do(s, c).0, location, v)
    ensures c.Call? && !Toggles(v) ==> HoldsOff(Do(s, c).0, location, Tick(v))
  {
    FirstIsMeans(s.list, location, v);
    hide First, Alone, Tick, Toggles, Do;
    DoKeepsGood(s, c);
    AloneStep(s, c, location);
    CellStep(s, c, location);
    UntouchedStep(s, c, location, v);
    if c.Call? && Toggles(v) { ToggleShows(s, location); }
  }

  // Ticks until the countdown runs out.
  lemma OneTickLess(v: Blink)
    ensures Toggles(v) <==> Effective(v.countdown) == 1
    ensures !Toggles(v) ==>
      Effective(Tick(v).countdown) == Effective(v.countdown) - 1 && Tick(v).status == v.status
  {
  }

  lemma {:induction false} OffUntilToggle(s: State, cs: seq<Cmd>, location: u16, v: Blink)
    requires CanRun(s, cs) && Untouched(cs, location) && HoldsOff(s, location, v)
    ensures ShowsAlone(Run(s, cs), location) <==>
      Calls(cs) >= Effective(v.countdown) || v.status % 2 == 0 || v.onChar == v.offChar
    decreases |cs|
  {
    hide Do, Tick, Toggles, ShowsAlone, HoldsOff, Effective;
    if cs == [] {
      HoldsOffShows(s, location, v);
    } else {
      var c, rest, t := cs[0], cs[1..], Do(s, cs[0]).0;
      HoldsOffStep(s, c, location, v);
      DoKeepsGood(s, c);
      OneTickLess(v);
      assert forall i :: 0 <= i < |rest| ==> rest[i] == cs[i + 1];
      if c.Call? && Toggles(v) {
        ShowsAloneRun(t, rest, location);
      } else {
        OffUntilToggle(t, rest, location, if c.Call? then Tick(v) else v);
      }
    }
  }

  // The exact condition over whole runs: after a sync the screen shows the target's
  // matching character once the source's countdown has run out, and before that only
  // where the off character happens to be it.
  lemma SyncShowsAfterCountdownIff(s: State, source: u16, target: u16, cs: seq<Cmd>)
    requires CanRun(s, cs) && Untouched(cs, target) && Alone(s.list, target)
    requires Do(s, Sync(source, target)).1 == 0
    ensures CanRun(Do(s, Sync(source, target)).0, cs)
    ensures ShowsAlone(Run(Do(s, Sync(source, target)).0, cs), target) <==>
      var i, j := First(s.list, source), First(s.list, target);
      Calls(cs) >= Effective(s.list[i].countdown) ||
      s.list[i].status % 2 == 0 || s.list[j].onChar == s.list[j].offChar
  {
    var i, j := First(s.list, source), First(s.list, target);
    DoKeepsGood(s, Sync(source, target));
    ReplaceKeepsAlone(s.list, j, Synced(s.list[i], s.list[j]), target);
    SyncedFirst(s.list, i, j, target);
    hide First, Run, Alone, Calls, Effective;
    OffUntilToggle(Do(s, Sync(source, target)).0, cs, target, Synced(s.list[i], s.list[j]));
  }

  // 'a' and 'b' at location 1, on; 'c' and 'd' at location 2, on: after the sync of 1
  // to 2 the second is on and the screen shows its off character.
  lemma SyncShowsTheWrongOne(screen: seq<byte>)
    requires |screen| == SCREEN
    ensures var s := State([Blink(1, 97, 98, 5, 5, 5, 1), Blink(2, 99, 100, 5, 5, 5, 1)], screen);
      var t := Do(s, Sync(1, 2)).0;
      Good(s) && Do(s, Sync(1, 2)).1 == 0 && t.list[1].status == 1 && t.screen[4] == 100
  {
    var list := [Blink(1, 97, 98, 5, 5, 5, 1), Blink(2, 99, 100, 5, 5, 5, 1)];
    FirstIsAt(list, 1, 0);
    FirstIsAt(list, 2, 1);
  }
}
