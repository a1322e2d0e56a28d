// Three terminals on one video frame (student-distrib/scheduling.c): switching
// copies frames through remapped pages and swaps the cursor and the line buffer.
module Terminals {
  import opened CString
  import opened Memory
  import opened Console
  import opened Paging
  import LineEditor

  const SCREEN_MEM := 0x200_0000     // terminal k keeps its frame k - 1 pages further
  const USER_VIDEO := 0x84B_8000     // and is seen k pages behind this virtual address
  const MEMORY_TOP := 0x200_3000

  function Backing(k: nat): nat
    requires 1 <= k <= 3
  { SCREEN_MEM + (k - 1) * PAGE_SIZE }

  function Virtual(k: nat): nat
    requires 1 <= k <= 3
  { USER_VIDEO + k * PAGE_SIZE }

  // ---- The specification: terminals that know nothing of each other ----

  datatype Term = Term(frame: seq<byte>, x: int, y: int, tbuf: nat, tbuffer: seq<byte>)

  // What can happen to one terminal.  Begin and Finish are the first and the last
  // thing that terminal_read does to the line.
  datatype Act = Start | Out(c: byte) | Begin | Finish | Clear | Poke(off: nat, v: byte)

  // A terminal on its own, with its own flag for a read that goes on; None before
  // it is started.
  datatype Alone = None | Some(t: Term, reading: bool)

  function ScreenOf(t: Term, reading: bool): Screen {
    Screen(t.frame, t.x, t.y, t.tbuf, t.tbuffer, reading)
  }

  function TermOf(s: Screen): Term { Term(s.frame, s.x, s.y, s.tbuf, s.tbuffer) }

  function Fresh(): Term { Term(Cleared(), 0, 0, 0, seq(LINE_BUF, _ => NUL)) }

  // The newline that a finished read puts behind the line.
  function Finished(t: Term): Term
    requires |t.tbuffer| == LINE_BUF && t.tbuf <= LINE
  {
    t.(tbuffer := t.tbuffer[t.tbuf := NEWLINE], tbuf := if t.tbuf < LINE then t.tbuf else LINE - 1)
  }

  ghost predicate CanDo(a: Alone, act: Act) {
    if a.None? then act == Start
    else match act
      case Start => false
      case Out(c) => a.t.y < ROWS && CanPut(ScreenOf(a.t, a.reading), c)
      case Begin => true
      case Finish => |a.t.tbuffer| == LINE_BUF && a.t.tbuf <= LINE
      case Clear => true
      case Poke(off, v) => off < FRAME && |a.t.frame| == FRAME
  }

  ghost function Do(a: Alone, act: Act): (r: Alone)
    requires CanDo(a, act)
    ensures r.Some?
  {
    match act
    case Start => Some(Fresh(), false)
    case Out(c) => var r := Put(ScreenOf(a.t, a.reading), c); Some(TermOf(r), r.tflag)
    case Begin => Some(a.t.(tbuf := 0), true)
    case Finish => Some(Finished(a.t), a.reading)
    case Clear => Some(a.t.(frame := Cleared(), x := 0, y := 0), a.reading)
    case Poke(off, v) => Some(a.t.(frame := a.t.frame[off := v]), a.reading)
  }

  ghost predicate CanLive(a: Alone, acts: seq<Act>)
    decreases |acts|
  {
    acts == [] || (CanDo(a, acts[0]) && CanLive(Do(a, acts[0]), acts[1..]))
  }

  ghost function Live(a: Alone, acts: seq<Act>): Alone
    requires CanLive(a, acts)
    decreases |acts|
  {
    if acts == [] then a else Live(Do(a, acts[0]), acts[1..])
  }

  // ---- The system: one of the started terminals is visible, and one flag for all ----

  type Terms = map<nat, Term>

  datatype State = State(terms: Terms, visible: nat, flag: bool)

  datatype Event =
    | Switch(k: nat)                     // Alt-F1, F2, F3
    | Output(c: byte)                    // putc, on the visible terminal
    | BeginRead                          // terminal_read empties the line and waits
    | EndRead                            // and ends it with a newline
    | Reset                              // Ctrl-L
    | Store(k: nat, off: nat, v: byte)   // a program's store through terminal k's page

  // The act that an event is for the terminal it reaches.
  ghost function ActOf(e: Event): Act {
    match e
    case Switch(_) => Start
    case Output(c) => Out(c)
    case BeginRead => Begin
    case EndRead => Finish
    case Reset => Clear
    case Store(_, off, v) => Poke(off, v)
  }

  // The terminal it reaches.
  ghost function Reached(s: State, e: Event): nat {
    match e
    case Switch(k) => k
    case Store(k, _, _) => k
    case _ => s.visible
  }

  ghost predicate CanStep(s: State, e: Event) {
    s.visible in s.terms &&
    match e
    case Switch(k) => 1 <= k <= 3
    case Store(k, _, _) => k in s.terms && CanDo(Some(s.terms[k], s.flag), ActOf(e))
    case _ => CanDo(Some(s.terms[s.visible], s.flag), ActOf(e))
  }

  ghost function Step(s: State, e: Event): (r: State)
    requires CanStep(s, e)
    ensures r.visible in r.terms
  {
    match e
    case Switch(k) => State(if k in s.terms then s.terms else s.terms[k := Fresh()], k, s.flag)
    case _ =>
      var k := Reached(s, e);
      var r := Do(Some(s.terms[k], s.flag), ActOf(e));
      State(s.terms[k := r.t], s.visible, r.reading)
  }

  ghost predicate CanRun(s: State, events: seq<Event>)
    decreases |events|
  {
    events == [] || (CanStep(s, events[0]) && CanRun(Step(s, events[0]), events[1..]))
  }

  ghost function Run(s: State, events: seq<Event>): State
    requires CanRun(s, events)
    decreases |events|
  {
    if events == [] then s else Run(Step(s, events[0]), events[1..])
  }

  lemma StoreIsStep(s: State, k: nat, off: nat, v: byte)
    requires s.visible in s.terms && k in s.terms && off < FRAME == |s.terms[k].frame|
    ensures CanStep(s, Store(k, off, v))
    ensures Step(s, Store(k, off, v)) == s.(terms := s.terms[k := s.terms[k].(frame := s.terms[k].frame[off := v])])
  {
  }

  // ---- Independence: a terminal is what it would be on its own ----

  // The act, if any, that one event is for terminal j.
  ghost function ActFor(s: State, e: Event, j: nat): seq<Act> {
    if Reached(s, e) != j || (e.Switch? && j in s.terms) then [] else [ActOf(e)]
  }

  // The acts of a run that are for terminal j.
  ghost function Own(s: State, events: seq<Event>, j: nat): seq<Act>
    requires CanRun(s, events)
    decreases |events|
  {
    if events == [] then [] else ActFor(s, events[0], j) + Own(Step(s, events[0]), events[1..], j)
  }

  ghost function FlagOf(a: Alone): bool { a.Some? && a.reading }

  // Terminal j is what the lone terminal a is; their flags may differ.
  ghost predicate Agrees(s: State, a: Alone, j: nat) {
    if a.None? then j !in s.terms else j in s.terms && s.terms[j] == a.t
  }

  // At every point of the run terminal j is what its own acts alone make of a.
  ghost predicate AgreesThroughout(s: State, a: Alone, events: seq<Event>, j: nat)
    requires CanRun(s, events)
    decreases |events|
  {
    && Agrees(s, a, j)
    && (events != [] ==>
          var acts := ActFor(s, events[0], j);
          CanLive(a, acts) && AgreesThroughout(Step(s, events[0]), Live(a, acts), events[1..], j))
  }

  // The flag that terminal j would have on its own.
  ghost function OwnFlag(s: State, own: bool, e: Event, j: nat): bool {
    if ActFor(s, e, j) == [] then own
    else match e
      case Switch(_) => false
      case BeginRead => true
      case Output(c) => own && !Breaks(c)
      case _ => own
  }

  // Whether putc of c does anything to the line of t when the flag is up.
  predicate Counts(t: Term, c: byte) {
    !Breaks(c) && (if c == BACKSPACE then t.tbuf != 0 else t.tbuf != LINE)
  }

  // No byte that counts for terminal j finds the flag other than j's own.
  ghost predicate Undisturbed(s: State, own: bool, events: seq<Event>, j: nat)
    requires CanRun(s, events)
    decreases |events|
  {
    events == [] || (
      && (events[0].Output? && s.visible == j && Counts(s.terms[j], events[0].c) ==> s.flag == own)
      && Undisturbed(Step(s, events[0]), OwnFlag(s, own, events[0], j), events[1..], j))
  }

  lemma DrawRecords(u: Screen, c: byte)
    requires Sized(u) && u.tbuf != LINE && Drawable(u)
    ensures var r := Draw(u, c);
      && r.tflag == u.tflag && r.tbuf == (if u.tflag then u.tbuf + 1 else u.tbuf)
      && r.tbuffer == (if u.tflag then u.tbuffer[u.tbuf := c] else u.tbuffer)
    ensures var r, q := Draw(u, c), Draw(u.(tflag := !u.tflag), c);
      r.frame == q.frame && r.x == q.x && r.y == q.y
  {
    hide PutAt, Scrolled, Rem, Quot, Drawable;
  }

  lemma PutRecords(u: Screen, c: byte)
    requires CanPut(u, c)
    ensures var v := u.(tflag := !u.tflag);
      CanPut(v, c) && (TermOf(Put(u, c)) == TermOf(Put(v, c)) <==> !Counts(TermOf(u), c))
    ensures Put(u, c).tflag == (u.tflag && !Breaks(c))
  {
    hide Draw, NextRow;
    NextRowKeeps(u.(tflag := false));
    if Counts(TermOf(u), c) {
      var b := if c == BACKSPACE then StepBack(u) else u;
      if u.tbuf != LINE {
        DrawRecords(b, if c == BACKSPACE then SPACE else c);
        DrawRecords(b.(tflag := !u.tflag), if c == BACKSPACE then SPACE else c);
      }
    }
  }

  lemma NextRowKeeps(u: Screen)
    requires Sized(u)
    ensures NextRow(u).tflag == u.tflag
  {
    hide Scrolled;
  }

  // With the line and the cursor the same, the flag makes a difference to exactly
  // the bytes that count.
  lemma FlagMatters(t: Term, c: byte, f: bool, g: bool)
    requires CanPut(ScreenOf(t, f), c)
    ensures CanPut(ScreenOf(t, g), c)
    ensures TermOf(Put(ScreenOf(t, f), c)) == TermOf(Put(ScreenOf(t, g), c)) <==> f == g || !Counts(t, c)
    ensures Put(ScreenOf(t, f), c).tflag == (f && !Breaks(c)) && Put(ScreenOf(t, g), c).tflag == (g && !Breaks(c))
  {
    hide Put, CanPut, Counts;
    PutRecords(ScreenOf(t, f), c);
    assert ScreenOf(t, f).(tflag := g) == ScreenOf(t, g);
    PutRecords(ScreenOf(t, g), c) by {
      assert f != g ==> ScreenOf(t, f).(tflag := !f) == ScreenOf(t, g);
    }
  }

  lemma OneAct(a: Alone, act: Act)
    ensures CanLive(a, [act]) <==> CanDo(a, act)
    ensures CanDo(a, act) ==> Live(a, [act]) == Do(a, act)
  {
    hide CanDo, Do;
    assert [act][1..] == [];
    if CanDo(a, act) {
      assert CanLive(Do(a, act), []);
    }
  }

  // One event: the lone terminal can follow, and the two still agree exactly if the
  // byte, if it is one that counts, has found the right flag.
  lemma OneEvent(s: State, a: Alone, e: Event, j: nat)
    requires CanStep(s, e) && Agrees(s, a, j)
    ensures var acts := ActFor(s, e, j);
      && CanLive(a, acts)
      && (Agrees(Step(s, e), Live(a, acts), j) <==>
           (e.Output? && s.visible == j && Counts(s.terms[j], e.c) ==> s.flag == FlagOf(a)))
      && FlagOf(Live(a, acts)) == OwnFlag(s, FlagOf(a), e, j)
  {
    hide Counts, CanPut, Put, Fresh, Cleared, Finished;
    if ActFor(s, e, j) != [] {
      OneAct(a, ActOf(e));
      if e.Output? { FlagMatters(a.t, e.c, s.flag, a.reading); }
    }
  }

  // The exact condition: terminal j is, throughout a run, what it would be on its
  // own if and only if no byte that counts for it finds the flag other than its own.
  lemma {:induction false} TerminalsAreIndependentIff(s: State, a: Alone, events: seq<Event>, j: nat)
    requires CanRun(s, events) && Agrees(s, a, j)
    ensures AgreesThroughout(s, a, events, j) <==> Undisturbed(s, FlagOf(a), events, j)
    decreases |events|
  {
    hide Step, CanStep, ActFor, Agrees, OwnFlag, Counts;
    if events != [] {
      var e, acts := events[0], ActFor(s, events[0], j);
      OneEvent(s, a, e, j);
      if Agrees(Step(s, e), Live(a, acts), j) {
        TerminalsAreIndependentIff(Step(s, e), Live(a, acts), events[1..], j);
      }
    }
  }

  lemma {:induction false} LiveAppends(a: Alone, u: seq<Act>, v: seq<Act>)
    requires CanLive(a, u) && CanLive(Live(a, u), v)
    ensures CanLive(a, u + v) && Live(a, u + v) == Live(Live(a, u), v)
    decreases |u|
  {
    hide Do, CanDo;
    if u == [] {
      assert u + v == v;
    } else {
      assert (u + v)[0] == u[0] && (u + v)[1..] == u[1..] + v;
      LiveAppends(Do(a, u[0]), u[1..], v);
    }
  }

  // Then it is, after the run, what its own acts alone make of it.
  lemma {:induction false} TerminalsAreIndependent(s: State, a: Alone, events: seq<Event>, j: nat)
    requires CanRun(s, events) && Agrees(s, a, j) && Undisturbed(s, FlagOf(a), events, j)
    ensures CanLive(a, Own(s, events, j))
    ensures Agrees(Run(s, events), Live(a, Own(s, events, j)), j)
    decreases |events|
  {
    hide Step, CanStep, ActFor, Agrees, OwnFlag, Counts;
    if events != [] {
      var acts := ActFor(s, events[0], j);
      OneEvent(s, a, events[0], j);
      TerminalsAreIndependent(Step(s, events[0]), Live(a, acts), events[1..], j);
      LiveAppends(a, acts, Own(Step(s, events[0]), events[1..], j));
    }
  }

  // ---- A condition that can be read off the events ----

  // A read begins, or a line break ends one, on whichever terminal is visible.
  predicate MovesFlag(e: Event) { e.BeginRead? || (e.Output? && Breaks(e.c)) }

  // `touched` says that the flag is not known to be j's own: another terminal has had
  // a begun read or a break since j's own last one, or j was started with the flag up.
  ghost function Touched(s: State, touched: bool, e: Event, j: nat): bool {
    if MovesFlag(e) then s.visible != j
    else if e == Switch(j) && j !in s.terms then s.flag
    else touched
  }

  // No byte but a break is output on j while the flag is touched.
  ghost predicate Quiet(s: State, touched: bool, events: seq<Event>, j: nat)
    requires CanRun(s, events)
    decreases |events|
  {
    events == [] || (
      && (events[0].Output? && s.visible == j && touched ==> Breaks(events[0].c))
      && Quiet(Step(s, events[0]), Touched(s, touched, events[0], j), events[1..], j))
  }

  lemma FlagStaysOwn(s: State, own: bool, touched: bool, e: Event, j: nat)
    requires CanStep(s, e) && (touched || s.flag == own || j !in s.terms)
    ensures Touched(s, touched, e, j) || Step(s, e).flag == OwnFlag(s, own, e, j) || j !in Step(s, e).terms
  {
    hide Fresh, Cleared, Finished, CanPut;
    if e.Output? {
      FlagMatters(s.terms[s.visible], e.c, s.flag, s.flag);
      hide Put;
    }
  }

  lemma {:induction false} QuietIsUndisturbed(s: State, own: bool, touched: bool, events: seq<Event>, j: nat)
    requires CanRun(s, events) && Quiet(s, touched, events, j)
    requires touched || s.flag == own || j !in s.terms
    ensures Undisturbed(s, own, events, j)
    decreases |events|
  {
    hide Step, Touched, OwnFlag, CanStep;
    if events != [] {
      var e := events[0];
      FlagStaysOwn(s, own, touched, e, j);
      VisibleIsStarted(s, e);
      QuietIsUndisturbed(Step(s, e), OwnFlag(s, own, e, j), Touched(s, touched, e, j), events[1..], j);
    }
  }

  lemma VisibleIsStarted(s: State, e: Event)
    requires CanStep(s, e)
    ensures s.visible in s.terms
  {
  }

  lemma OnFresh(t: Term, reading: bool)
    requires t == Fresh()
    ensures CanPut(ScreenOf(t, reading), 97) && CanPut(ScreenOf(t, reading), NEWLINE)
    ensures Put(ScreenOf(t, reading), 97).tbuf == if reading then 1 else 0
    ensures !Put(ScreenOf(t, reading), NEWLINE).tflag
  {
  }

  lemma FirstEvent(s: State, e: Event, events: seq<Event>, j: nat)
    requires CanStep(s, e) && CanRun(Step(s, e), events)
    ensures CanRun(s, [e] + events) && Run(s, [e] + events) == Run(Step(s, e), events)
    ensures Own(s, [e] + events, j) == ActFor(s, e, j) + Own(Step(s, e), events, j)
  {
    assert ([e] + events)[1..] == events;
  }

  lemma TwoActs(a: Alone, u: Act, v: Act)
    requires CanDo(a, u) && CanDo(Do(a, u), v)
    ensures CanLive(a, [u, v]) && Live(a, [u, v]) == Do(Do(a, u), v)
  {
    hide Do, CanDo;
    assert [u, v][1..] == [v];
    OneAct(Do(a, u), v);
  }

  // Terminal 1 reads; a line break on terminal 2 ends that read, and the letter that is
  // typed on terminal 1 then gets lost.
  lemma BreakElsewhereLosesLetter(s: State, alone: Alone, events: seq<Event>)
    requires s == State(map[1 := Fresh(), 2 := Fresh()], 1, false) && alone == Some(Fresh(), false)
    requires events == [BeginRead, Switch(2), Output(NEWLINE), Switch(1), Output(97)]
    ensures CanRun(s, events) && Own(s, events, 1) == [Begin, Out(97)] && CanLive(alone, [Begin, Out(97)])
    ensures var r := Run(s, events); 1 in r.terms && r.terms[1].tbuf == 0
    ensures Live(alone, [Begin, Out(97)]).t.tbuf == 1
  {
    OnFresh(Fresh(), true);
    OnFresh(Fresh(), false);
    TwoActs(alone, Begin, Out(97));
    hide Put, CanPut, Fresh, CanRun, Run, Own;
    var s1 := Step(s, BeginRead);
    var s2 := Step(s1, Switch(2));
    var s3 := Step(s2, Output(NEWLINE));
    var s4 := Step(s3, Switch(1));
    EmptyRun(Step(s4, Output(97)), 1);
    FirstEvent(s4, Output(97), [], 1);
    FirstEvent(s3, Switch(1), [Output(97)], 1);
    FirstEvent(s2, Output(NEWLINE), [Switch(1), Output(97)], 1);
    FirstEvent(s1, Switch(2), [Output(NEWLINE), Switch(1), Output(97)], 1);
    FirstEvent(s, BeginRead, [Switch(2), Output(NEWLINE), Switch(1), Output(97)], 1);
  }

  lemma EmptyRun(s: State, j: nat)
    ensures CanRun(s, []) && Run(s, []) == s && Own(s, [], j) == []
  {
  }

  // Terminal 1 reads; what a first visit prints on terminal 2 is taken for typed.
  lemma FirstVisitIsRecorded(s: State, events: seq<Event>)
    requires s == State(map[1 := Fresh()], 1, true) && events == [Switch(2), Output(97)]
    ensures CanRun(s, events) && Own(s, events, 2) == [Start, Out(97)] && CanLive(None, [Start, Out(97)])
    ensures var r := Run(s, events); 2 in r.terms && r.terms[2].tbuf == 1
    ensures Live(None, [Start, Out(97)]).t.tbuf == 0
  {
    OnFresh(Fresh(), true);
    OnFresh(Fresh(), false);
    TwoActs(None, Start, Out(97));
    hide Put, CanPut, Fresh, CanRun, Run, Own;
    var s1 := Step(s, Switch(2));
    EmptyRun(Step(s1, Output(97)), 2);
    FirstEvent(s1, Output(97), [], 2);
    FirstEvent(s, Switch(2), [Output(97)], 2);
  }

  // ---- What each event means for the terminal it reaches ----

  ghost predicate OnlyVisibleChanged(s: State, r: State)
    requires s.visible in s.terms
  {
    && r.visible == s.visible && r.terms.Keys == s.terms.Keys
    && forall j :: j in s.terms && j != s.visible ==> r.terms[j] == s.terms[j]
  }

  lemma OneEventRun(s: State, e: Event)
    requires CanStep(s, e)
    ensures CanRun(s, [e]) && Run(s, [e]) == Step(s, e)
  {
    hide CanStep, Step;
    EmptyRun(Step(s, e), 0);
    FirstEvent(s, e, [], 0);
    assert [e] + [] == [e];
  }

  ghost function Outputs(bytes: seq<byte>): (es: seq<Event>)
    ensures |es| == |bytes|
  {
    seq(|bytes|, i requires 0 <= i < |bytes| => Output(bytes[i]))
  }

  lemma {:induction false} OutputsPut(s: State, bytes: seq<byte>)
    requires s.visible in s.terms && CanPutAll(ScreenOf(s.terms[s.visible], s.flag), bytes)
    ensures CanRun(s, Outputs(bytes)) && OnlyVisibleChanged(s, Run(s, Outputs(bytes)))
    ensures var r := Run(s, Outputs(bytes));
      ScreenOf(r.terms[s.visible], r.flag) == Puts(ScreenOf(s.terms[s.visible], s.flag), bytes)
    decreases |bytes|
  {
    hide Put, CanPut;
    if bytes == [] {
      EmptyRun(s, 0);
      assert Outputs(bytes) == [];
    } else {
      var e := Output(bytes[0]);
      assert CanStep(s, e);
      var t := Step(s, e);
      OutputsPut(t, bytes[1..]);
      assert Outputs(bytes) == [e] + Outputs(bytes[1..]);
      FirstEvent(s, e, Outputs(bytes[1..]), 0);
    }
  }

  // A begun read and any keys but a line break: whatever the line held before, it is
  // then what the keys make of an empty one.
  lemma ReadCollects(s: State, bytes: seq<byte>)
    requires s.visible in s.terms && LineEditor.NoBreaks(bytes)
    requires var t := s.terms[s.visible];
      && |t.frame| == FRAME && |t.tbuffer| == LINE_BUF && 0 <= t.y < ROWS && t.x < COLS && 0 <= COLS * t.y + t.x
    ensures var events := [BeginRead] + Outputs(bytes);
      && CanRun(s, events) && OnlyVisibleChanged(s, Run(s, events)) && Run(s, events).flag
      && var t := Run(s, events).terms[s.visible];
         && |t.tbuffer| == LINE_BUF && t.tbuf <= LINE
         && t.tbuffer[..t.tbuf] == LineEditor.Keys(LineEditor.Empty, bytes).line
  {
    hide Put, CanPut, LineEditor.Key;
    assert CanStep(s, BeginRead);
    var begun := Step(s, BeginRead);
    var u := ScreenOf(begun.terms[s.visible], begun.flag);
    LineEditor.KeysEdit(u, LineEditor.Empty, bytes);
    hide CanPutAll, Puts;
    OutputsPut(begun, bytes);
    FirstEvent(s, BeginRead, Outputs(bytes), 0);
  }

  // The end of a read: a newline behind the line, of which at most 127 bytes count.
  lemma EndReadMeans(s: State)
    requires s.visible in s.terms
    requires var t := s.terms[s.visible]; |t.tbuffer| == LINE_BUF && t.tbuf <= LINE
    ensures CanRun(s, [EndRead]) && OnlyVisibleChanged(s, Run(s, [EndRead])) && Run(s, [EndRead]).flag == s.flag
    ensures var t, r := s.terms[s.visible], Run(s, [EndRead]).terms[s.visible];
      && r.tbuf == (if t.tbuf < 128 then t.tbuf else 127) && |r.tbuffer| == LINE_BUF
      && r.tbuffer[t.tbuf] == NEWLINE
      && (forall k :: 0 <= k < LINE_BUF && k != t.tbuf ==> r.tbuffer[k] == t.tbuffer[k])
      && r.frame == t.frame && r.x == t.x && r.y == t.y
  {
    OneEventRun(s, EndRead);
  }

  ghost predicate BlankFrame(frame: seq<byte>) {
    |frame| == FRAME && forall p {:trigger frame[2 * p]} :: 0 <= p < CELLS ==>
      frame[2 * p] == SPACE && frame[2 * p + 1] == ATTRIB
  }

  // Ctrl-L: blank cells and the cursor in the corner; the line and the flag stay.
  lemma ResetMeans(s: State)
    requires s.visible in s.terms
    ensures CanRun(s, [Reset]) && OnlyVisibleChanged(s, Run(s, [Reset])) && Run(s, [Reset]).flag == s.flag
    ensures var t, r := s.terms[s.visible], Run(s, [Reset]).terms[s.visible];
      BlankFrame(r.frame) && r.x == 0 && r.y == 0 && r.tbuf == t.tbuf && r.tbuffer == t.tbuffer
  {
    OneEventRun(s, Reset);
  }

  // A switch: the flag and every started terminal stay; a new one is blank, with the
  // cursor in the corner and an empty line.
  lemma SwitchMeans(s: State, k: nat)
    requires s.visible in s.terms && 1 <= k <= 3
    ensures CanRun(s, [Switch(k)])
    ensures var r := Run(s, [Switch(k)]);
      && r.visible == k && r.flag == s.flag && r.terms.Keys == s.terms.Keys + {k}
      && (forall j :: j in s.terms ==> r.terms[j] == s.terms[j])
      && (k !in s.terms ==> BlankFrame(r.terms[k].frame) && r.terms[k].x == r.terms[k].y == r.terms[k].tbuf == 0)
  {
    OneEventRun(s, Switch(k));
  }

  // A program's store: one byte of one frame.
  lemma StoreMeans(s: State, k: nat, off: nat, v: byte)
    requires s.visible in s.terms && k in s.terms && off < FRAME == |s.terms[k].frame|
    ensures CanRun(s, [Store(k, off, v)])
    ensures var r := Run(s, [Store(k, off, v)]);
      && r.visible == s.visible && r.flag == s.flag && r.terms.Keys == s.terms.Keys
      && (forall j :: j in s.terms && j != k ==> r.terms[j] == s.terms[j])
      && |r.terms[k].frame| == FRAME && r.terms[k] == s.terms[k].(frame := r.terms[k].frame)
      && (forall i :: 0 <= i < FRAME ==> r.terms[k].frame[i] == if i == off then v else s.terms[k].frame[i])
  {
    StoreIsStep(s, k, off, v);
    OneEventRun(s, Store(k, off, v));
  }

  // ---- The implementation ----

  datatype Saved = Saved(x: int, y: int, tbuf: nat)

  // A byte of one frame is in no other frame.
  lemma FramesAfterStore(o: seq<byte>, base: nat, off: nat, v: byte, other: nat)
    requires |o| >= MEMORY_TOP && off < FRAME
    requires base == VIDEO || exists k :: 1 <= k <= 3 && base == Backing(k)
    requires other == VIDEO || exists k :: 1 <= k <= 3 && other == Backing(k)
    ensures var m := o[base + off := v];
      m[other..other + FRAME] == if other == base then o[base..base + FRAME][off := v] else o[other..other + FRAME]
  {
  }

  lemma VirtualIndex(k: nat, off: nat)
    requires 1 <= k <= 3 && off < PAGE_SIZE
    ensures var v := Virtual(k) + off;
      v / BIG_PAGE == VIDEO_ENTRY && v / PAGE_SIZE % ENTRIES == VIDEO_PAGE_OFF + k && v % PAGE_SIZE == off
    ensures var v := VIDEO + off;
      v / BIG_PAGE == 0 && v / PAGE_SIZE % ENTRIES == VIDEO_PAGE_OFF && v % PAGE_SIZE == off
  {
  }

  lemma OneFrameMoved(m: seq<byte>, to: nat, from: nat, m': seq<byte>)
    requires to + FRAME <= |m| && from + FRAME <= |m| && m' == AtOnce(m, to, from, FRAME)
    ensures m'[to..to + FRAME] == m[from..from + FRAME]
  {
  }

  lemma OtherFramesStay(m: seq<byte>, to: nat, from: nat, m': seq<byte>, b: nat)
    requires to + FRAME <= |m| && from + FRAME <= |m| && m' == AtOnce(m, to, from, FRAME)
    requires b + FRAME <= |m| && (b + FRAME <= to || to + FRAME <= b)
    ensures m'[b..b + FRAME] == m[b..b + FRAME]
  {
    assert forall a {:trigger m'[a]} :: 0 <= a < |m| && (a < to || to + FRAME <= a) ==> m'[a] == m[a];
  }

  class System {
    const mem: array<byte>
    const d: Display
    const tables: Tables
    var indicator: nat
    var started: seq<bool>       // fts_1, fts_2, fts_3
    var saved: seq<Saved>        // screen1x, screen1y, tbuf1 and so on
    const buffer1: array<byte>
    const buffer2: array<byte>
    const buffer3: array<byte>

    function Line(k: nat): array<byte>
      requires 1 <= k <= 3
    {
      if k == 1 then buffer1 else if k == 2 then buffer2 else buffer3
    }

    ghost function LineAt(k: nat): (s: seq<byte>)
      requires 1 <= k <= 3
      reads Line(k)
      ensures |s| == Line(k).Length
    {
      Line(k)[..]
    }

    ghost function Lines(): set<object> { {buffer1, buffer2, buffer3} }

    // The line buffers are long enough and nothing else.
    ghost predicate LinesOk() {
      && buffer1.Length == buffer2.Length == buffer3.Length == LINE_BUF
      && buffer1 != buffer2 && buffer1 != buffer3 && buffer2 != buffer3
      && Apart(buffer1) && Apart(buffer2) && Apart(buffer3)
    }

    ghost predicate Apart(line: array<byte>) {
      line != mem && line != d.tbuffer && tables.table2 as object != line
    }

    // A terminal that has not been visited has an empty line.
    ghost predicate Recorded(k: nat)
      requires 1 <= k <= 3 && |started| == 3 && |saved| == 3
      reads this`started, this`saved, Line(k)
    {
      && saved[k - 1].tbuf <= LINE
      && (!started[k - 1] ==> saved[k - 1].tbuf == 0 && LineAt(k) == seq(LINE_BUF, _ => NUL))
    }

    // The arrays and objects are distinct, and the tables map the frames.
    ghost predicate Mapped()
      reads tables.directory, tables.table
    {
      && tables.Valid() && tables.table2 as object != d.tbuffer && tables.table2 as object != mem
      && mem.Length >= MEMORY_TOP && d.mem == mem && d.tbuffer != mem
      && tables.directory[0] == FirstTable && tables.directory[VIDEO_ENTRY] == SecondTable
      && tables.table[VIDEO_PAGE_OFF] == VIDEO + 1 && LinesOk()
    }

    ghost predicate Sane()
      reads this, d, tables.directory, tables.table, Lines()
    {
      && Mapped() && d.Valid() && 1 <= indicator <= 3 && |started| == 3 && |saved| == 3
      && Recorded(1) && Recorded(2) && Recorded(3)
    }

    // Exactly the visible terminal's page is the video memory; every other page is
    // its own backing frame.
    ghost predicate PagesAtRest()
      requires Mapped()
      reads this`indicator, tables.directory, tables.table, tables.table2
    {
      forall k {:trigger Backing(k)} :: 1 <= k <= 3 ==>
        tables.table2[VIDEO_PAGE_OFF + k] == (if k == indicator then VIDEO else Backing(k)) + RESERV_CODE_2
    }

    ghost predicate Valid()
      reads this, d, tables.directory, tables.table, tables.table2, Lines()
    {
      Sane() && started[indicator - 1] && PagesAtRest()
    }

    ghost function FrameAt(base: nat): seq<byte>
      requires base + FRAME <= mem.Length
      reads mem
    {
      mem[base..base + FRAME]
    }

    ghost function TermAt(k: nat): Term
      requires Sane() && 1 <= k <= 3
      reads this, d, tables.directory, tables.table, mem, d.tbuffer, Lines()
    {
      if k == indicator then TermOf(d.View()) else StoredTerm(k)
    }

    // A terminal that is put away: its backing frame, its saved cursor and line.
    ghost function StoredTerm(k: nat): Term
      requires Mapped() && 1 <= k <= 3 && |saved| == 3
      reads this`saved, tables.directory, tables.table, mem, Line(k)
    {
      Term(FrameAt(Backing(k)), saved[k - 1].x, saved[k - 1].y, saved[k - 1].tbuf, LineAt(k))
    }

    ghost function Abs(): State
      requires Sane()
      reads this, d, tables.directory, tables.table, mem, d.tbuffer, Lines()
    {
      State(map k: nat | 1 <= k <= 3 && started[k - 1] :: TermAt(k), indicator, d.tflag)
    }

    constructor (mem: array<byte>)
      requires mem.Length >= MEMORY_TOP
      ensures this.mem == mem && fresh(d) && fresh(d.tbuffer)
      ensures fresh(tables.directory) && fresh(tables.table) && fresh(tables.table2) && fresh(Lines())
      ensures Sane() && indicator == 1 && started == [false, false, false]
      ensures d.View() == Screen(mem[VIDEO..VIDEO + FRAME], 0, 0, 0, seq(LINE_BUF, _ => NUL), false)
    {
      this.mem := mem;
      d := new Display(mem);
      tables := new Tables();
      indicator := 1;
      started := [false, false, false];
      saved := seq(3, _ => Saved(0, 0, 0));
      buffer1 := new byte[LINE_BUF](_ => NUL);
      buffer2 := new byte[LINE_BUF](_ => NUL);
      buffer3 := new byte[LINE_BUF](_ => NUL);
      new;
      tables.FillTable();
      tables.FillDirectory();
    }

    // Where a program's byte at offset off of terminal k's page really is.
    lemma PageTranslates(k: nat, off: nat, base: nat)
      requires Mapped() && 1 <= k <= 3 && off < PAGE_SIZE && base % PAGE_SIZE == 0
      requires tables.table2[VIDEO_PAGE_OFF + k] == base + RESERV_CODE_2
      ensures tables.Translate(Virtual(k) + off) == Physical(base + off)
      ensures tables.Translate(VIDEO + off) == Physical(VIDEO + off)
    {
      hide InTable;
      VirtualIndex(k, off);
      WordReadsBack(base, RESERV_CODE_2, Virtual(k) + off);
      WordReadsBack(VIDEO, 1, VIDEO + off);
    }

    // At rest exactly the visible terminal's page is the screen.
    lemma OnlyVisiblePageIsVideo(k: nat, off: nat)
      requires Valid() && 1 <= k <= 3 && off < PAGE_SIZE
      ensures tables.Translate(Virtual(k) + off) == Physical((if k == indicator then VIDEO else Backing(k)) + off)
      ensures tables.Translate(Virtual(k) + off) == Physical(VIDEO + off) <==> k == indicator
    {
      var backing := Backing(k);
      PageTranslates(k, off, if k == indicator then VIDEO else backing);
    }

    // memcpy of a frame between two page-aligned virtual addresses.
    method CopyFrame(dst: nat, src: nat, ghost to: nat, ghost from: nat)
      requires Mapped() && dst / BIG_PAGE < ENTRIES && src / BIG_PAGE < ENTRIES
      requires tables.Translate(dst) == Physical(to) && tables.Translate(src) == Physical(from)
      requires to + FRAME <= mem.Length && from + FRAME <= mem.Length && (to + FRAME <= from || from + FRAME <= to)
      modifies mem
      ensures FrameAt(to) == old(FrameAt(from))
      ensures forall b {:trigger FrameAt(b)} ::
        0 <= b && b + FRAME <= mem.Length && (b + FRAME <= to || to + FRAME <= b) ==>
        FrameAt(b) == old(FrameAt(b))
    {
      hide FastCopy, AtOnce;
      ghost var m := mem[..];
      Memcpy(mem, tables.Translate(dst).at, tables.Translate(src).at, FRAME);
      MemcpyMovesAll(m, to, from, FRAME);
      OneFrameMoved(m, to, from, mem[..]);
      forall b {:trigger FrameAt(b)} | 0 <= b && b + FRAME <= mem.Length && (b + FRAME <= to || to + FRAME <= b)
        ensures FrameAt(b) == old(FrameAt(b))
      {
        OtherFramesStay(m, to, from, mem[..], b);
        assert mem[..][b..b + FRAME] == mem[b..b + FRAME] && m[b..b + FRAME] == old(mem[b..b + FRAME]);
      }
      assert mem[..][to..to + FRAME] == mem[to..to + FRAME] && m[from..from + FRAME] == old(mem[from..from + FRAME]);
    }

    // memcpy of a whole line buffer.
    static method CopyLine(to: array<byte>, from: array<byte>)
      requires to.Length == LINE_BUF == from.Length && to != from
      modifies to
      ensures to[..] == from[..]
    {
      var i := 0;
      while i < LINE_BUF
        invariant 0 <= i <= LINE_BUF && to[..i] == from[..i]
      {
        to[i] := from[i];
        i := i + 1;
      }
    }

    // The record and the line buffer of the visible terminal take over what the
    // display has; the other two terminals keep theirs.
    method GetCursorAndBuffer()
      requires Sane()
      modifies this`saved, Line(indicator)
      ensures LineAt(indicator) == d.tbuffer[..]
      ensures saved == old(saved)[indicator - 1 := Saved(d.screen_x, d.screen_y, d.tbuf)]
      ensures forall k {:trigger LineAt(k)} :: 1 <= k <= 3 && k != indicator ==> LineAt(k) == old(LineAt(k))
    {
      saved := saved[indicator - 1 := Saved(d.screen_x, d.screen_y, d.tbuf)];
      CopyLine(Line(indicator), d.tbuffer);
    }

    method SetCursorAndBuffer()
      requires Mapped() && d.Valid() && 1 <= indicator <= 3 && |saved| == 3 && saved[indicator - 1].tbuf <= LINE
      modifies d, d.tbuffer
      ensures d.Valid()
      ensures d.screen_x == saved[indicator - 1].x && d.screen_y == saved[indicator - 1].y
      ensures d.tbuf == saved[indicator - 1].tbuf && d.tbuffer[..] == LineAt(indicator)
      ensures d.tflag == old(d.tflag)
    {
      var s := saved[indicator - 1];
      d.screen_x := s.x;
      d.screen_y := s.y;
      d.tbuf := s.tbuf;
      CopyLine(d.tbuffer, Line(indicator));
    }

    // The visible frame goes to its backing page, through the remapped video page.
    method CopyFromVideo()
      requires Mapped() && 1 <= indicator <= 3
      modifies mem, tables.table2
      ensures tables.table2[..] ==
        old(tables.table2[..])[VIDEO_PAGE_OFF + indicator := Backing(indicator) + RESERV_CODE_2]
      ensures FrameAt(Backing(indicator)) == old(FrameAt(VIDEO)) && FrameAt(VIDEO) == old(FrameAt(VIDEO))
      ensures forall k :: 1 <= k <= 3 && k != indicator ==> FrameAt(Backing(k)) == old(FrameAt(Backing(k)))
    {
      tables.SetupPagingDirectoryTable(RESERV_CODE_2, Backing(indicator), indicator);
      PageTranslates(indicator, 0, Backing(indicator));
      CopyFrame(Virtual(indicator), VIDEO, Backing(indicator), VIDEO);
    }

    // The backing page becomes the visible frame, and then the page is the screen.
    method CopyToVideo()
      requires Mapped() && 1 <= indicator <= 3
      requires tables.table2[VIDEO_PAGE_OFF + indicator] == Backing(indicator) + RESERV_CODE_2
      modifies mem, tables.table2
      ensures tables.table2[..] == old(tables.table2[..])[VIDEO_PAGE_OFF + indicator := VIDEO + RESERV_CODE_2]
      ensures FrameAt(VIDEO) == old(FrameAt(Backing(indicator)))
      ensures forall k :: 1 <= k <= 3 ==> FrameAt(Backing(k)) == old(FrameAt(Backing(k)))
    {
      PageTranslates(indicator, 0, Backing(indicator));
      CopyFrame(VIDEO, Virtual(indicator), VIDEO, Backing(indicator));
      tables.SetupPagingDirectoryTable(RESERV_CODE_2, VIDEO, indicator);
    }

    // The first half of a switch: the visible terminal is put away.
    method PutAway()
      requires Sane() && PagesAtRest()
      requires !started[indicator - 1] ==> d.tbuf == 0 && d.tbuffer[..] == seq(LINE_BUF, _ => NUL)
      modifies this`saved, mem, tables.table2, Line(indicator)
      ensures Sane()
      ensures forall j {:trigger Backing(j)} {:trigger StoredTerm(j)} :: 1 <= j <= 3 ==>
        StoredTerm(j) == old(TermAt(j)) && tables.table2[VIDEO_PAGE_OFF + j] == Backing(j) + RESERV_CODE_2
    {
      GetCursorAndBuffer();
      assert Sane();
      CopyFromVideo();
    }

    // The second half of a first switch: a cleared screen with an empty line.
    method Begin()
      requires Mapped() && d.Valid() && 1 <= indicator <= 3 && |saved| == 3
      modifies d, mem, tables.table2
      ensures Mapped() && d.Valid() && d.tflag == old(d.tflag)
      ensures TermOf(d.View()) == Term(Cleared(), 0, 0, old(d.tbuf), old(d.tbuffer[..]))
      ensures tables.table2[..] == old(tables.table2[..])[VIDEO_PAGE_OFF + indicator := VIDEO + RESERV_CODE_2]
      ensures forall j {:trigger StoredTerm(j)} :: 1 <= j <= 3 ==> StoredTerm(j) == old(StoredTerm(j))
    {
      d.ResetScreen();
      assert forall j :: 1 <= j <= 3 ==> FrameAt(Backing(j)) == old(FrameAt(Backing(j)));
      tables.SetupPagingDirectoryTable(RESERV_CODE_2, VIDEO, indicator);
    }

    // screen1, screen2 and screen3 are this, for k = 1, 2, 3; the shell that a first
    // switch runs is output that follows.
    method ScreenTo(k: nat)
      requires Sane() && PagesAtRest() && 1 <= k <= 3
      requires !started[indicator - 1] ==> k == indicator && d.tbuf == 0 && d.tbuffer[..] == seq(LINE_BUF, _ => NUL)
      modifies this, d, d.tbuffer, mem, tables.table2, Lines()
      ensures Valid() && d.tflag == old(d.tflag) && indicator == k && started == old(started)[k - 1 := true]
      ensures forall j {:trigger TermAt(j)} :: 1 <= j <= 3 ==>
        TermAt(j) == if j == k && !old(started[k - 1]) then Fresh() else old(TermAt(j))
    {
      PutAway();
      indicator := k;
      TakeOut();
    }

    // The second half of a switch, to `indicator`.
    method TakeOut()
      requires Sane()
      requires forall j {:trigger Backing(j)} :: 1 <= j <= 3 ==>
        tables.table2[VIDEO_PAGE_OFF + j] == Backing(j) + RESERV_CODE_2
      modifies this`started, d, d.tbuffer, mem, tables.table2
      ensures Valid() && d.tflag == old(d.tflag) && started == old(started)[indicator - 1 := true]
      ensures TermOf(d.View()) == if old(started[indicator - 1]) then old(StoredTerm(indicator)) else Fresh()
      ensures forall j {:trigger StoredTerm(j)} :: 1 <= j <= 3 ==> StoredTerm(j) == old(StoredTerm(j))
    {
      SetCursorAndBuffer();
      if !started[indicator - 1] {
        started := started[indicator - 1 := true];
        Begin();
        return;
      }
      assert Backing(indicator) == Backing(indicator);
      CopyToVideo();
    }

    // init_screen_memory: three video pages, then terminal 1.
    method InitScreenMemory()
      requires Sane() && indicator == 1 && started == [false, false, false]
      requires d.tbuf == 0 && d.tbuffer[..] == seq(LINE_BUF, _ => NUL)
      modifies this, d, d.tbuffer, mem, tables.table2, Lines()
      ensures Valid() && Abs() == State(map[1 := Fresh()], 1, d.tflag) && d.tflag == old(d.tflag)
    {
      tables.SetupPagingDirectoryTable(RESERV_CODE_2, VIDEO, 1);
      tables.SetupPagingDirectoryTable(RESERV_CODE_2, Backing(2), 2);
      tables.SetupPagingDirectoryTable(RESERV_CODE_2, Backing(3), 3);
      ScreenTo(1);
      assert TermAt(1) == Fresh();
    }

    // Whatever changes only terminal k's value changes only its entry of the state.
    twostate lemma OneTermChanged(k: nat)
      requires old(Sane()) && Sane() && 1 <= k <= 3 && started == old(started)[k - 1 := true]
      requires forall j {:trigger TermAt(j)} :: 1 <= j <= 3 && j != k ==> TermAt(j) == old(TermAt(j))
      ensures Abs() == State(old(Abs()).terms[k := TermAt(k)], indicator, d.tflag)
    {
      hide TermAt, StoredTerm, Mapped, Recorded, TermOf, LineAt;
    }

    // Only the display changed, and of memory only the video page.
    twostate lemma VisibleChanged()
      requires old(Sane()) && Sane() && indicator == old(indicator) && started == old(started) && saved == old(saved)
      requires started[indicator - 1] && d.OnlyVideo()
      requires forall k {:trigger Line(k)} :: 1 <= k <= 3 ==> LineAt(k) == old(LineAt(k))
      ensures Abs() == State(old(Abs()).terms[indicator := TermOf(d.View())], indicator, d.tflag)
    {
      hide Sized;
      assert forall j :: 1 <= j <= 3 ==> FrameAt(Backing(j)) == old(FrameAt(Backing(j)));
      OneTermChanged(indicator);
    }

    method SwitchTo(k: nat)
      requires Valid() && 1 <= k <= 3
      modifies this, d, d.tbuffer, mem, tables.table2, Lines()
      ensures Valid() && CanStep(old(Abs()), Switch(k)) && Abs() == Step(old(Abs()), Switch(k))
    {
      hide Fresh, TermOf;
      ghost var was := Abs().terms;
      assert k in was <==> started[k - 1];
      assert k in was ==> was[k] == TermAt(k);
      ScreenTo(k);
      OneTermChanged(k);
      assert k in was ==> was[k := TermAt(k)] == was;
    }

    // Console output reaches the visible terminal only.
    method Print(c: byte)
      requires Valid() && d.screen_y < ROWS && CanPut(d.View(), c)
      modifies d, d.tbuffer, mem
      ensures Valid() && CanStep(old(Abs()), Output(c)) && Abs() == Step(old(Abs()), Output(c))
    {
      hide Put, CanPut;
      d.PutC(c);
      VisibleChanged();
    }

    // terminal_read's first two stores.
    method BeginReading()
      requires Valid()
      modifies d`tbuf, d`tflag
      ensures Valid() && CanStep(old(Abs()), BeginRead) && Abs() == Step(old(Abs()), BeginRead)
    {
      d.tbuf := 0;
      d.tflag := true;
      VisibleChanged();
    }

    // What it does to the line once the wait is over.
    method EndReading()
      requires Valid()
      modifies d`tbuf, d.tbuffer
      ensures Valid() && CanStep(old(Abs()), EndRead) && Abs() == Step(old(Abs()), EndRead)
    {
      if d.tbuf < LINE {
        d.tbuffer[d.tbuf] := NEWLINE;
      } else {
        d.tbuffer[LINE] := NEWLINE;
        d.tbuf := LINE - 1;
      }
      VisibleChanged();
    }

    method ClearVisible()
      requires Valid()
      modifies d`screen_x, d`screen_y, mem
      ensures Valid() && CanStep(old(Abs()), Reset) && Abs() == Step(old(Abs()), Reset)
    {
      d.ResetScreen();
      VisibleChanged();
    }

    // Where the page tables put a byte of terminal k's page.
    lemma PageByte(k: nat, off: nat)
      requires Valid() && 1 <= k <= 3 && off < PAGE_SIZE
      ensures tables.Valid() && (Virtual(k) + off) / BIG_PAGE < ENTRIES && tables.Translate(Virtual(k) + off).Physical?
      ensures tables.Translate(Virtual(k) + off).at == (if k == indicator then VIDEO else Backing(k)) + off
    {
      OnlyVisiblePageIsVideo(k, off);
    }

    // A program's store through the page that vidmap gave it: the page tables decide
    // whether it lands on the screen or in the backing frame.
    method StoreThrough(k: nat, off: nat, v: byte)
      requires Valid() && 1 <= k <= 3 && started[k - 1] && off < FRAME
      modifies mem
      ensures Valid() && CanStep(old(Abs()), Store(k, off, v)) && Abs() == Step(old(Abs()), Store(k, off, v))
    {
      hide Step, CanStep, Abs, TermAt;
      ghost var was := Abs();
      StartedTerm(k);
      PageByte(k, off);
      var at := tables.Translate(Virtual(k) + off).at;
      StoreInTerm(at, k, off, v);
      StoreIsStep(was, k, off, v);
    }

    lemma StartedTerm(k: nat)
      requires Valid() && 1 <= k <= 3 && started[k - 1]
      ensures k in Abs().terms && Abs().terms[k] == TermAt(k) && |TermAt(k).frame| == FRAME
      ensures Abs().visible == indicator && indicator in Abs().terms
    {
    }

    method StoreInTerm(at: nat, ghost k: nat, ghost off: nat, v: byte)
      requires Valid() && 1 <= k <= 3 && started[k - 1] && off < FRAME
      requires at == (if k == indicator then VIDEO else Backing(k)) + off
      modifies mem
      ensures Valid()
      ensures Abs() ==
        old(Abs()).(terms := old(Abs()).terms[k := old(TermAt(k)).(frame := old(TermAt(k)).frame[off := v])])
    {
      StoreByte(at, k, off, v);
      OneTermChanged(k);
    }

    method StoreByte(at: nat, ghost k: nat, ghost off: nat, v: byte)
      requires Sane() && 1 <= k <= 3 && off < FRAME
      requires at == (if k == indicator then VIDEO else Backing(k)) + off
      modifies mem
      ensures Sane()
      ensures TermAt(k) == old(TermAt(k)).(frame := old(TermAt(k)).frame[off := v])
      ensures forall j {:trigger TermAt(j)} :: 1 <= j <= 3 && j != k ==> TermAt(j) == old(TermAt(j))
    {
      ghost var o, base := mem[..], at - off;
      mem[at] := v;
      assert mem[..] == o[base + off := v];
      forall b | b in {VIDEO, Backing(1), Backing(2), Backing(3)}
        ensures FrameAt(b) == if b == base then old(FrameAt(b))[off := v] else old(FrameAt(b))
      {
        FramesAfterStore(o, base, off, v, b);
        assert FrameAt(b) == mem[..][b..b + FRAME];
      }
    }

    // vidmap hands out the visible terminal's page, if the pointer is in range.
    method Vidmap(screen_start: nat) returns (r: int, page: nat)
      requires Valid()
      ensures r == if 0x0804_8000 / 4 <= screen_start < USER_VIDEO then 0 else -1
      ensures r == 0 ==> page == Virtual(indicator)
      ensures r == 0 ==> forall v :: page <= v < page + PAGE_SIZE ==>
        tables.Translate(v) == Physical(VIDEO + (v - page))
    {
      if screen_start == 0 || screen_start < 0x0804_8000 / 4 || screen_start >= USER_VIDEO { return -1, 0; }
      page := USER_VIDEO + indicator * PAGE_SIZE;
      forall v | page <= v < page + PAGE_SIZE
        ensures tables.Translate(v) == Physical(VIDEO + (v - page))
      {
        OnlyVisiblePageIsVideo(indicator, v - page);
      }
      return 0, page;
    }

    lemma VisibleTerm()
      requires Valid()
      ensures indicator in Abs().terms && Abs().visible == indicator
      ensures ScreenOf(Abs().terms[indicator], Abs().flag) == d.View()
    {
    }

    method Handle(e: Event)
      requires Valid() && CanStep(Abs(), e)
      modifies this, d, d.tbuffer, mem, tables.table2, Lines()
      ensures Valid() && Abs() == Step(old(Abs()), e)
    {
      hide Put, CanPut, Step;
      match e {
        case Switch(k) => SwitchTo(k);
        case Output(c) =>
          VisibleTerm();
          Print(c);
        case BeginRead => BeginReading();
        case EndRead => EndReading();
        case Reset => ClearVisible();
        case Store(k, off, v) => StoreThrough(k, off, v);
      }
    }

    // A whole run: any interleaving of switches, output, reads, clearing and stores.
    method Serve(events: seq<Event>)
      requires Valid() && CanRun(Abs(), events)
      modifies this, d, d.tbuffer, mem, tables.table2, Lines()
      ensures Valid() && Abs() == Run(old(Abs()), events)
    {
      hide CanStep, Step, Abs;
      ghost var s := Abs();
      var i := 0;
      while i < |events|
        invariant 0 <= i <= |events| && Valid()
        invariant CanRun(Abs(), events[i..]) && Run(Abs(), events[i..]) == Run(s, events)
      {
        assert events[i..][0] == events[i] && events[i..][1..] == events[i + 1..];
        Handle(events[i]);
        i := i + 1;
      }
    }
  }
}
