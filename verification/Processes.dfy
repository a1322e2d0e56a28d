// execute and halt on one terminal (student-distrib/syscall.c): pid slots, process
// control blocks, the task page, and the descriptor table that goes with them.
module Processes {
  import opened CString
  import opened FileSystem
  import opened Descriptors
  import opened Paging
  import Disk

  const TASK_SIZE := 0x40_0000
  const PIDS := 6
  const MAGIC: seq<byte> := [0x7F, 0x45, 0x4C, 0x46]
  const SHELL: seq<byte> := [115, 104, 101, 108, 108]

  // Where a pid's 4 MB page lies; the six of them end at MEMORY.
  function PageOf(pid: nat): nat { KERNEL + TASK_SIZE * (pid + 1) }

  const MEMORY := 0x200_0000

  // A program is seen at this address, and loaded some way behind it.
  const TASK_VIRTUAL := 0x800_0000
  const EXEC_LOCATION := 0x804_8000
  const LOAD_OFF := EXEC_LOCATION - TASK_VIRTUAL
  const ROOM := TASK_SIZE - LOAD_OFF

  // ---- The specification: a stack of processes ----

  // `snapshot` is the descriptor table as it was when the process was created; `esp`
  // stands for the kernel stack of the execute call that waits for it to halt.
  datatype Proc = Proc(pid: nat, name: seq<byte>, snapshot: seq<FileDesc>, esp: nat)

  // The running process is the last of the stack; fd is the current descriptor table,
  // and frames holds what each pid's page holds, live or not.
  datatype State = State(stack: seq<Proc>, fd: seq<FileDesc>, frames: seq<seq<byte>>)

  // What a program file holds, if the name leads to an executable.
  ghost predicate Executable(img: Image, name: seq<byte>)
    requires HasTables(img)
  {
    var i := Lookup(img, name, 0);
    i.Some? && ValidInode(img, EntryOf(img, i.value).inode) && MAGIC <= ProgramOf(img, name)
  }

  ghost function ProgramOf(img: Image, name: seq<byte>): seq<byte>
    requires HasTables(img) && Lookup(img, name, 0).Some?
    requires ValidInode(img, EntryOf(img, Lookup(img, name, 0).value).inode)
  {
    Content(img, EntryOf(img, Lookup(img, name, 0).value).inode)
  }

  // On a disk of known parts, entry i being the first of its name: an executable is a file
  // of at least four bytes that starts with 0x7F and "ELF", and its program is the file of
  // the entry's own inode, whatever the entry's type.
  lemma ExecutableOnDisk(img: Image, d: Disk.Parts, i: nat)
    requires Disk.Sound(d) && Disk.Laid(img, d) && Disk.FirstOfName(d, i)
    requires d.entries[i].inode % 256 < |d.nodes|
    ensures HasTables(img)
    ensures var file := Disk.Bytes(d, d.entries[i].inode % 256);
      && (Executable(img, d.entries[i].name) <==>
            |file| >= 4 && file[0] == 0x7F && file[1] == 0x45 && file[2] == 0x4C && file[3] == 0x46)
      && (Executable(img, d.entries[i].name) ==> ProgramOf(img, d.entries[i].name) == file)
  {
    var n := d.entries[i].inode % 256;
    Disk.FirstIsFound(img, d, i);
    Disk.LaidEntryReads(img, d, i);
    Disk.ContentIsBytes(img, d, n);
    hide Disk.Laid, Disk.Bytes, Content, ValidInode, HasTables, Lookup, EntryOf, NameOf, Disk.Sound;
    var file := Disk.Bytes(d, n);
    if |file| >= 4 {
      assert file[..4] == MAGIC <==> MAGIC <= file;
      assert file[..4] == [file[0], file[1], file[2], file[3]];
    }
  }

  ghost predicate InUse(stack: seq<Proc>, pid: nat) {
    exists k :: 0 <= k < |stack| && stack[k].pid == pid
  }

  // setPnum on the terminal whose root pid is `root`: that pid first, then 3, 4, 5.
  ghost function Slot(stack: seq<Proc>, root: nat): Option<nat> {
    if !InUse(stack, root) then Some(root)
    else if !InUse(stack, 3) then Some(3)
    else if !InUse(stack, 4) then Some(4)
    else if !InUse(stack, 5) then Some(5)
    else None
  }

  lemma SlotBound(stack: seq<Proc>, root: nat)
    requires root < 3
    ensures Slot(stack, root).Some? ==> Slot(stack, root).value < PIDS
  {
    hide InUse;
  }

  datatype Event =
    | Exec(name: seq<byte>, esp: nat)
    | Halt(esp: nat)                        // esp: of the execute that a root's halt does itself
    | Use(fd: seq<FileDesc>)                // any open, read, close
    | Store(off: nat, v: byte)              // of the running program, to its own page

  // A program that its page has room for.
  ghost predicate Fits(img: Image, name: seq<byte>)
    requires HasTables(img) && Executable(img, name)
  {
    |ProgramOf(img, name)| <= ROOM
  }

  ghost predicate WholeFrames(frames: seq<seq<byte>>) {
    |frames| == PIDS && forall p {:trigger frames[p]} :: 0 <= p < PIDS ==> |frames[p]| == TASK_SIZE
  }

  // A page's bytes once a program has been loaded.
  ghost function Loaded(frame: seq<byte>, program: seq<byte>): (r: seq<byte>)
    requires |frame| == TASK_SIZE && |program| <= ROOM
    ensures |r| == TASK_SIZE
  {
    Splice(frame, LOAD_OFF, program)
  }

  ghost predicate Sound(img: Image, s: State, root: nat) {
    && root < 3 && HasTables(img) && WellFormed(img, s.fd) && WholeFrames(s.frames)
    && (forall i, j :: 0 <= i < j < |s.stack| ==> s.stack[i].pid != s.stack[j].pid)
    && (forall k {:trigger s.stack[k]} :: 0 <= k < |s.stack| ==>
          s.stack[k].pid == (if k == 0 then root else s.stack[k].pid) < PIDS
          && (k > 0 ==> 3 <= s.stack[k].pid) && WellFormed(img, s.stack[k].snapshot))
  }

  ghost predicate CanStep(img: Image, s: State, e: Event)
    requires HasTables(img)
  {
    match e
    case Exec(name, _) => Executable(img, name) ==> Fits(img, name)
    case Halt(_) => s.stack != [] && (|s.stack| == 1 ==> Executable(img, SHELL) && Fits(img, SHELL))
    case Use(fd) => WellFormed(img, fd)
    case Store(off, _) => s.stack != [] && off < TASK_SIZE
  }

  ghost function Step(img: Image, s: State, root: nat, e: Event): State
    requires Sound(img, s, root) && CanStep(img, s, e)
  {
    SlotBound(s.stack, root);
    match e
    case Exec(name, esp) =>
      if !Executable(img, name) then s
      else
        (match Slot(s.stack, root)
         case None => s
         case Some(pid) =>
           var fd := WithTerminal(s.fd);
           State(s.stack + [Proc(pid, name, fd, esp)], fd,
                 s.frames[pid := Loaded(s.frames[pid], ProgramOf(img, name))]))
    case Halt(esp) =>
      var n := |s.stack| - 1;
      if n == 0 then
        var fd := WithTerminal(s.fd);
        State([Proc(root, SHELL, fd, esp)], fd, s.frames[root := Loaded(s.frames[root], ProgramOf(img, SHELL))])
      else State(s.stack[..n], s.stack[n - 1].snapshot, s.frames)
    case Use(fd) => s.(fd := fd)
    case Store(off, v) =>
      var pid := s.stack[|s.stack| - 1].pid;
      s.(frames := s.frames[pid := Splice(s.frames[pid], off, [v])])
  }

  // The slot is the root's own, or else the lowest free of 3, 4 and 5; there is none
  // only when those and the root's are all taken.
  lemma SlotIsLowest(stack: seq<Proc>, root: nat)
    ensures match Slot(stack, root)
      case None => InUse(stack, root) && InUse(stack, 3) && InUse(stack, 4) && InUse(stack, 5)
      case Some(pid) =>
        && !InUse(stack, pid) && (pid == root || 3 <= pid <= 5)
        && (pid != root ==> InUse(stack, root) && forall p :: 3 <= p < pid ==> InUse(stack, p))
  {
    hide InUse;
  }

  lemma WithTerminalIsWellFormed(img: Image, fd: seq<FileDesc>)
    requires WellFormed(img, fd)
    ensures WellFormed(img, WithTerminal(fd))
  {
  }

  // The slot is nobody's, and it is the root's only on an empty stack.
  lemma SlotIsFree(img: Image, s: State, root: nat)
    requires Sound(img, s, root) && Slot(s.stack, root).Some?
    ensures var pid := Slot(s.stack, root).value;
      && pid < PIDS && !InUse(s.stack, pid) && (if s.stack == [] then pid == root else 3 <= pid)
  {
    if s.stack != [] {
      assert s.stack[0].pid == root;
      assert InUse(s.stack, root);
    }
  }

  lemma StepIsSound(img: Image, s: State, root: nat, e: Event)
    requires Sound(img, s, root) && CanStep(img, s, e)
    ensures Sound(img, Step(img, s, root, e), root)
  {
    hide Executable, ProgramOf;
    WithTerminalIsWellFormed(img, s.fd);
    match e {
      case Exec(name, esp) =>
        if Executable(img, name) && Slot(s.stack, root).Some? {
          SlotIsFree(img, s, root);
          hide WellFormed, WithTerminal, Slot, Loaded;
          var t := Step(img, s, root, e).stack;
          assert forall k {:trigger t[k]} :: 0 <= k < |s.stack| ==> t[k] == s.stack[k];
        }
      case Halt(esp) => hide WellFormed, WithTerminal;
      case Use(fd) => hide WellFormed, WithTerminal;
      case Store(_, _) => hide WellFormed, WithTerminal;
    }
  }

  // What one event means, in the bytes of the pages.
  ghost predicate ProgramIsThere(frames: seq<seq<byte>>, was: seq<seq<byte>>, pid: nat, program: seq<byte>)
    requires WholeFrames(frames) && WholeFrames(was) && pid < PIDS && |program| <= 0x3B_8000
  {
    && (forall p :: 0 <= p < PIDS && p != pid ==> frames[p] == was[p])
    && forall o {:trigger frames[pid][o]} :: 0 <= o < TASK_SIZE ==>
         frames[pid][o] == if 0x4_8000 <= o < 0x4_8000 + |program| then program[o - 0x4_8000] else was[pid][o]
  }

  lemma LoadedBytes(frame: seq<byte>, program: seq<byte>)
    requires |frame| == TASK_SIZE && |program| <= ROOM
    ensures forall o {:trigger Loaded(frame, program)[o]} :: 0 <= o < TASK_SIZE ==>
      Loaded(frame, program)[o] ==
      if 0x4_8000 <= o < 0x4_8000 + |program| then program[o - 0x4_8000] else frame[o]
  {
  }

  // A program that is executed stands in its own page 0x48000 bytes behind the start, and
  // on the stack with its name; its descriptors are the terminal's two and the parent's.
  lemma ExecMeans(img: Image, s: State, root: nat, name: seq<byte>, esp: nat)
    requires Sound(img, s, root) && Executable(img, name) && Fits(img, name) && Slot(s.stack, root).Some?
    ensures var t, pid := Step(img, s, root, Exec(name, esp)), Slot(s.stack, root).value;
      && |t.stack| == |s.stack| + 1 && t.stack[..|s.stack|] == s.stack
      && t.stack[|s.stack|] == Proc(pid, name, t.fd, esp) && pid < PIDS
      && |t.fd| == SLOTS && t.fd[0] == FileDesc(TermIn, 0, 0, true) && t.fd[1] == FileDesc(TermOut, 0, 1, true)
      && t.fd[2..] == s.fd[2..]
      && WholeFrames(t.frames) && ProgramIsThere(t.frames, s.frames, pid, ProgramOf(img, name))
  {
    StepIsSound(img, s, root, Exec(name, esp));
    SlotIsFree(img, s, root);
    LoadedBytes(s.frames[Slot(s.stack, root).value], ProgramOf(img, name));
    hide Executable, ProgramOf, Slot, Loaded;
  }

  // A root that halts is the shell again, freshly loaded, in its own page.
  lemma RootHaltMeans(img: Image, s: State, root: nat, esp: nat)
    requires Sound(img, s, root) && |s.stack| == 1 && Executable(img, SHELL) && Fits(img, SHELL)
    ensures var t := Step(img, s, root, Halt(esp));
      && t.stack == [Proc(root, [115, 104, 101, 108, 108], t.fd, esp)]
      && |t.fd| == SLOTS && t.fd[0] == FileDesc(TermIn, 0, 0, true) && t.fd[1] == FileDesc(TermOut, 0, 1, true)
      && t.fd[2..] == s.fd[2..]
      && WholeFrames(t.frames) && ProgramIsThere(t.frames, s.frames, root, ProgramOf(img, SHELL))
  {
    StepIsSound(img, s, root, Halt(esp));
    LoadedBytes(s.frames[root], ProgramOf(img, SHELL));
    hide Executable, ProgramOf, Slot, Loaded;
  }

  // ---- Whole runs ----

  ghost predicate CanRun(img: Image, s: State, root: nat, events: seq<Event>)
    decreases |events|
  {
    Sound(img, s, root) &&
    (events == [] || (CanStep(img, s, events[0]) && CanRun(img, Step(img, s, root, events[0]), root, events[1..])))
  }

  ghost function RunAll(img: Image, s: State, root: nat, events: seq<Event>): (r: State)
    requires CanRun(img, s, root, events)
    ensures Sound(img, r, root)
    decreases |events|
  {
    if events == [] then s else RunAll(img, Step(img, s, root, events[0]), root, events[1..])
  }

  // The stack never goes below a depth during a run.
  ghost predicate StaysAbove(img: Image, s: State, root: nat, events: seq<Event>, depth: nat)
    requires CanRun(img, s, root, events)
    decreases |events|
  {
    |s.stack| > depth &&
    (events == [] || StaysAbove(img, Step(img, s, root, events[0]), root, events[1..], depth))
  }

  // One event leaves the pages of all but the running process alone, unless that
  // process is the root and halts.
  lemma StepKeepsPages(img: Image, s: State, root: nat, e: Event, k: nat)
    requires Sound(img, s, root) && CanStep(img, s, e) && k + 1 < |s.stack|
    ensures s.stack[k].pid < PIDS && WholeFrames(Step(img, s, root, e).frames)
    ensures Step(img, s, root, e).frames[s.stack[k].pid] == s.frames[s.stack[k].pid]
  {
    StepIsSound(img, s, root, e);
    if e.Exec? && Executable(img, e.name) && Slot(s.stack, root).Some? {
      SlotIsFree(img, s, root);
    }
    hide Executable, ProgramOf, WellFormed, WithTerminal, Slot, Loaded;
  }

  // Whatever the processes above do, those below a depth keep everything that is
  // recorded about them, and so does the first one above, as long as it is there.  Those
  // below also keep every byte of their pages.
  lemma {:induction false} LowerProcessesRest(img: Image, s: State, root: nat, events: seq<Event>, depth: nat)
    requires CanRun(img, s, root, events) && StaysAbove(img, s, root, events, depth) && depth > 0
    ensures |RunAll(img, s, root, events).stack| > depth
    ensures RunAll(img, s, root, events).stack[..depth + 1] == s.stack[..depth + 1]
    ensures PagesRest(s, RunAll(img, s, root, events), depth)
    decreases |events|
  {
    hide Executable, ProgramOf, WellFormed, WithTerminal, Slot, Sound, Loaded, PagesRest;
    if events != [] {
      var t := Step(img, s, root, events[0]);
      assert |t.stack| > depth;
      assert t.stack[..depth + 1] == s.stack[..depth + 1];
      LowerProcessesRest(img, t, root, events[1..], depth);
      LowerPagesRest(img, s, root, events[0], depth);
      assert t.stack[..depth + 1][..depth] == t.stack[..depth] && s.stack[..depth + 1][..depth] == s.stack[..depth];
      PagesRestTwice(s, t, RunAll(img, s, root, events), depth);
    } else {
      PagesRestAtFirst(img, s, root, depth);
    }
  }

  // The first `depth` processes of s have the same bytes in their pages in t.
  ghost predicate PagesRest(s: State, t: State, depth: nat) {
    && depth <= |s.stack| && |s.frames| == |t.frames| == PIDS
    && forall k {:trigger s.stack[k]} :: 0 <= k < depth ==>
         s.stack[k].pid < PIDS && t.frames[s.stack[k].pid] == s.frames[s.stack[k].pid]
  }

  lemma PagesRestAtFirst(img: Image, s: State, root: nat, depth: nat)
    requires Sound(img, s, root) && depth <= |s.stack|
    ensures PagesRest(s, s, depth)
  {
    hide WellFormed;
  }

  lemma LowerPagesRest(img: Image, s: State, root: nat, e: Event, depth: nat)
    requires Sound(img, s, root) && CanStep(img, s, e) && depth < |s.stack|
    ensures PagesRest(s, Step(img, s, root, e), depth)
  {
    StepIsSound(img, s, root, e);
    assert |s.frames| == |Step(img, s, root, e).frames| == PIDS;
    hide Sound, Step, CanStep, WholeFrames;
    forall k {:trigger s.stack[k]} | 0 <= k < depth
      ensures s.stack[k].pid < PIDS && Step(img, s, root, e).frames[s.stack[k].pid] == s.frames[s.stack[k].pid]
    {
      StepKeepsPages(img, s, root, e, k);
    }
  }

  lemma PagesRestTwice(s: State, t: State, u: State, depth: nat)
    requires PagesRest(s, t, depth) && PagesRest(t, u, depth) && s.stack[..depth] == t.stack[..depth]
    ensures PagesRest(s, u, depth)
  {
    forall k {:trigger s.stack[k]} | 0 <= k < depth
      ensures s.stack[k].pid < PIDS && u.frames[s.stack[k].pid] == s.frames[s.stack[k].pid]
    {
      assert s.stack[k] == s.stack[..depth][k] == t.stack[..depth][k] == t.stack[k];
    }
  }

  // A child that is executed, runs any program of executes, halts and descriptor
  // calls, and is then the running process again.
  ghost predicate ChildRuns(img: Image, s: State, root: nat, name: seq<byte>, esp: nat, events: seq<Event>) {
    && Sound(img, s, root) && s.stack != [] && Executable(img, name) && Fits(img, name)
    && Slot(s.stack, root).Some?
    && var child := Step(img, s, root, Exec(name, esp));
       && CanRun(img, child, root, events) && StaysAbove(img, child, root, events, |s.stack|)
       && |RunAll(img, child, root, events).stack| == |s.stack| + 1
  }

  ghost function BeforeHalt(img: Image, s: State, root: nat, name: seq<byte>, esp: nat, events: seq<Event>): (r: State)
    requires ChildRuns(img, s, root, name, esp, events)
    ensures Sound(img, r, root) && |r.stack| == |s.stack| + 1 >= 2
  {
    RunAll(img, Step(img, s, root, Exec(name, esp)), root, events)
  }

  ghost function AfterHalt(img: Image, s: State, root: nat, name: seq<byte>, esp: nat, events: seq<Event>,
                           any: nat): State
    requires ChildRuns(img, s, root, name, esp, events)
  {
    hide ChildRuns;
    Step(img, BeforeHalt(img, s, root, name, esp, events), root, Halt(any))
  }

  // The main result: such a child's halt gives its parent's place back: the same stack
  // below, the parent on top, the descriptor table that the parent was created with, and
  // the pages of all of them as they were, whatever was loaded and stored in between.
  // The execute that started the child is the one that is resumed.
  lemma HaltReturnsToParent(img: Image, s: State, root: nat, name: seq<byte>, esp: nat, events: seq<Event>, any: nat)
    requires ChildRuns(img, s, root, name, esp, events)
    ensures BeforeHalt(img, s, root, name, esp, events).stack[|s.stack|].esp == esp
    ensures s.stack != []
    ensures AfterHalt(img, s, root, name, esp, events, any).stack == s.stack
    ensures AfterHalt(img, s, root, name, esp, events, any).fd == s.stack[|s.stack| - 1].snapshot
    ensures PagesRest(s, AfterHalt(img, s, root, name, esp, events, any), |s.stack|)
  {
    hide *;
    StackBeforeHalt(img, s, root, name, esp, events);
    HaltPops(img, BeforeHalt(img, s, root, name, esp, events), root, any);
    HaltIsStep(img, s, root, name, esp, events, any);
    PagesOfParents(img, s, root, name, esp, events, any);
  }

  lemma HaltIsStep(img: Image, s: State, root: nat, name: seq<byte>, esp: nat, events: seq<Event>, any: nat)
    requires ChildRuns(img, s, root, name, esp, events)
    ensures var last := BeforeHalt(img, s, root, name, esp, events);
      && CanStep(img, last, Halt(any))
      && AfterHalt(img, s, root, name, esp, events, any) == Step(img, last, root, Halt(any))
  {
    hide ChildRuns, Step;
  }

  lemma HaltPops(img: Image, s: State, root: nat, any: nat)
    requires Sound(img, s, root) && |s.stack| > 1
    ensures CanStep(img, s, Halt(any))
    ensures Step(img, s, root, Halt(any)) ==
      State(s.stack[..|s.stack| - 1], s.stack[|s.stack| - 2].snapshot, s.frames)
  {
  }

  lemma StackBeforeHalt(img: Image, s: State, root: nat, name: seq<byte>, esp: nat, events: seq<Event>)
    requires ChildRuns(img, s, root, name, esp, events)
    ensures var last := BeforeHalt(img, s, root, name, esp, events);
      && s.stack != [] && last.stack[..|s.stack|] == s.stack && last.stack[|s.stack|].esp == esp
      && last.stack[|s.stack| - 1] == s.stack[|s.stack| - 1]
  {
    hide Executable, ProgramOf, WellFormed, WithTerminal, Slot, Sound, Loaded, PagesRest;
    var child := Step(img, s, root, Exec(name, esp));
    LowerProcessesRest(img, child, root, events, |s.stack|);
    var last := RunAll(img, child, root, events);
    assert last.stack == last.stack[..|s.stack| + 1];
    assert child.stack[..|s.stack|] == s.stack;
    assert last.stack[..|s.stack|] == s.stack;
  }

  lemma PagesOfParents(img: Image, s: State, root: nat, name: seq<byte>, esp: nat, events: seq<Event>, any: nat)
    requires ChildRuns(img, s, root, name, esp, events)
    ensures PagesRest(s, AfterHalt(img, s, root, name, esp, events, any), |s.stack|)
  {
    var child := Step(img, s, root, Exec(name, esp));
    ChildLeavesPages(img, s, root, name, esp);
    LowerProcessesRest(img, child, root, events, |s.stack|);
    assert AfterHalt(img, s, root, name, esp, events, any).frames == BeforeHalt(img, s, root, name, esp, events).frames;
    assert s.stack[..|s.stack|] == s.stack;
    hide *;
    PagesRestTwice(s, child, BeforeHalt(img, s, root, name, esp, events), |s.stack|);
  }

  lemma ChildLeavesPages(img: Image, s: State, root: nat, name: seq<byte>, esp: nat)
    requires Sound(img, s, root) && Executable(img, name) && Fits(img, name) && Slot(s.stack, root).Some?
    ensures PagesRest(s, Step(img, s, root, Exec(name, esp)), |s.stack|)
    ensures |Step(img, s, root, Exec(name, esp)).stack| == |s.stack| + 1
    ensures Step(img, s, root, Exec(name, esp)).stack[..|s.stack|] == s.stack
  {
    SlotIsFree(img, s, root);
    hide Executable, ProgramOf, WellFormed, WithTerminal, Slot, Loaded;
  }

  // The exact condition for a parent to find its descriptors as it left them, after
  // any run of its child: they have to be what they were when the parent was created.
  lemma DescriptorsSurviveIff(img: Image, s: State, root: nat, name: seq<byte>, esp: nat, events: seq<Event>, any: nat)
    requires ChildRuns(img, s, root, name, esp, events)
    ensures s.stack != []
    ensures AfterHalt(img, s, root, name, esp, events, any).fd == s.fd <==> s.fd == s.stack[|s.stack| - 1].snapshot
  {
    hide *;
    HaltReturnsToParent(img, s, root, name, esp, events, any);
  }

  // An entry that open can put at descriptor d.
  ghost predicate Openable(img: Image, fd: seq<FileDesc>, d: nat, f: FileDesc) {
    && WellFormed(img, fd) && 2 <= d < SLOTS && LowestFree(OpenIn(fd), d) && f.flags && f.inode < 256
    && (f.ops == Rtc || f.ops == Dir || (f.ops == File && ValidInode(img, f.inode)))
  }

  lemma OpenIsUse(img: Image, fd: seq<FileDesc>, d: nat, f: FileDesc)
    requires Openable(img, fd, d, f)
    ensures WellFormed(img, fd[d := f])
    ensures d in OpenIn(fd[d := f]) && OpenIn(fd) == OpenIn(fd[d := f]) - {d}
  {
    hide ValidInode;
  }

  // A process that has just been started with `name` and has opened a file.
  ghost function StartedAndOpened(img: Image, s: State, root: nat, name: seq<byte>, esp: nat, d: nat, f: FileDesc):
    (r: State)
    requires Sound(img, s, root) && Executable(img, name) && Fits(img, name) && Slot(s.stack, root).Some?
    requires Openable(img, WithTerminal(s.fd), d, f)
    ensures Sound(img, r, root) && |r.stack| == |s.stack| + 1
    ensures r.fd == WithTerminal(s.fd)[d := f] && r.stack[|s.stack|].snapshot == WithTerminal(s.fd)
  {
    StepIsSound(img, s, root, Exec(name, esp));
    OpenIsUse(img, WithTerminal(s.fd), d, f);
    var p := Step(img, s, root, Exec(name, esp));
    StepIsSound(img, p, root, Use(p.fd[d := f]));
    Step(img, p, root, Use(p.fd[d := f]))
  }

  // It executes a child; when that halts, after any run of its own, the file is no
  // longer open, and what is open is what was when the parent started.
  lemma OpenedFileIsLost(img: Image, s: State, root: nat, name: seq<byte>, esp: nat, d: nat, f: FileDesc,
                         child: seq<byte>, esp1: nat, events: seq<Event>, any: nat)
    requires Sound(img, s, root) && Executable(img, name) && Fits(img, name) && Slot(s.stack, root).Some?
    requires Openable(img, WithTerminal(s.fd), d, f)
    requires ChildRuns(img, StartedAndOpened(img, s, root, name, esp, d, f), root, child, esp1, events)
    ensures var parent := StartedAndOpened(img, s, root, name, esp, d, f);
      && d in OpenIn(parent.fd)
      && OpenIn(AfterHalt(img, parent, root, child, esp1, events, any).fd) == OpenIn(WithTerminal(s.fd))
      && OpenIn(WithTerminal(s.fd)) == OpenIn(parent.fd) - {d}
  {
    assert |s.fd| == SLOTS;
    hide *;
    OpenIsUse(img, WithTerminal(s.fd), d, f);
    var parent := StartedAndOpened(img, s, root, name, esp, d, f);
    HaltReturnsToParent(img, parent, root, child, esp1, events, any);
  }

  // At most four processes run on a terminal.
  lemma AtMostFour(img: Image, s: State, root: nat)
    requires Sound(img, s, root)
    ensures |s.stack| <= 4
    ensures |s.stack| == 4 <==> Slot(s.stack, root).None?
  {
    hide WellFormed;
    var st := s.stack;
    if |st| > 4 {
      assert st[1].pid != st[2].pid && st[1].pid != st[3].pid && st[1].pid != st[4].pid && st[2].pid != st[3].pid
        && st[2].pid != st[4].pid && st[3].pid != st[4].pid;
    }
    if |st| == 4 {
      assert st[1].pid != st[2].pid && st[1].pid != st[3].pid && st[2].pid != st[3].pid;
      assert InUse(st, st[0].pid) && InUse(st, st[1].pid) && InUse(st, st[2].pid) && InUse(st, st[3].pid);
    }
    if Slot(st, root).None? {
      var a, b, c := 0, 0, 0;
      a :| 0 <= a < |st| && st[a].pid == 3;
      b :| 0 <= b < |st| && st[b].pid == 4;
      c :| 0 <= c < |st| && st[c].pid == 5;
      assert st[0].pid == root;
    }
  }

  // ---- What the kernel's tables say ----

  // A process control block.  Each pid has one fixed place for it in memory, so a
  // pointer to a block is the pid whose place it is.
  datatype Pcb = Pcb(fd: seq<FileDesc>, pid: nat, filename: seq<byte>, parent: Option<nat>, haltesp: nat)

  // The live pids: the root first, then others from 3 up, all different.
  ghost predicate Pids(stack: seq<nat>, root: nat) {
    && root < 3
    && (forall k {:trigger stack[k]} :: 0 <= k < |stack| ==>
          stack[k] < PIDS && if k == 0 then stack[k] == root else 3 <= stack[k])
    && forall i, j :: 0 <= i < j < |stack| ==> stack[i] != stack[j]
  }

  // Each live block carries its pid, a sound table, and a link to the block below;
  // and exactly the live pids of this terminal are marked as taken.
  ghost predicate Linked(img: Image, root: nat, stack: seq<nat>, pcbs: seq<Pcb>) {
    && Pids(stack, root) && |pcbs| == PIDS
    && forall k {:trigger stack[k]} :: 0 <= k < |stack| ==>
         && pcbs[stack[k]].pid == stack[k] && WellFormed(img, pcbs[stack[k]].fd)
         && (k > 0 ==> pcbs[stack[k]].parent == Some(stack[k - 1]))
  }

  ghost predicate Marked(root: nat, stack: seq<nat>, slots: seq<bool>) {
    |slots| == PIDS && root < 3 && forall p :: p == root || 3 <= p < PIDS ==> (slots[p] <==> p in stack)
  }

  ghost function Procs(root: nat, stack: seq<nat>, pcbs: seq<Pcb>): (s: seq<Proc>)
    requires Pids(stack, root) && |pcbs| == PIDS
    ensures |s| == |stack| && forall k {:trigger s[k]} :: 0 <= k < |s| ==> s[k] == ProcAt(pcbs, stack[k])
  {
    seq(|stack|, k requires 0 <= k < |stack| => ProcAt(pcbs, stack[k]))
  }

  ghost function ProcAt(pcbs: seq<Pcb>, pid: nat): Proc
    requires |pcbs| == PIDS && pid < PIDS
  {
    Proc(pid, pcbs[pid].filename, pcbs[pid].fd, pcbs[pid].haltesp)
  }

  // What the physical memory holds in each pid's page.
  ghost function Frames(m: seq<byte>): (f: seq<seq<byte>>)
    requires |m| >= MEMORY
    ensures WholeFrames(f)
  {
    seq(PIDS, p requires 0 <= p < PIDS => m[PageOf(p)..PageOf(p) + TASK_SIZE])
  }

  // Bytes that change inside one pid's page change no other pid's.
  lemma OneFrameChanged(m: seq<byte>, m': seq<byte>, pid: nat, off: nat, c: seq<byte>)
    requires |m| >= MEMORY && pid < PIDS && off + |c| <= TASK_SIZE && m' == Splice(m, PageOf(pid) + off, c)
    ensures |m'| == |m| && Frames(m') == Frames(m)[pid := Splice(Frames(m)[pid], off, c)]
  {
    var f, g := Frames(m), Frames(m');
    forall p | 0 <= p < PIDS ensures g[p] == if p == pid then Splice(f[pid], off, c) else f[p] {
      hide Splice, PageOf, Frames;
      PagesApart(p, pid);
      FrameIs(m, p);
      FrameIs(m, pid);
      OneFrame(m, m', PageOf(p), PageOf(pid), off, c);
      FrameIs(m', p);
    }
    hide Splice, Frames;
    assert g == f[pid := Splice(f[pid], off, c)];
  }

  lemma PagesApart(p: nat, q: nat)
    requires p < PIDS && q < PIDS
    ensures PageOf(p) + TASK_SIZE <= MEMORY
    ensures p == q || PageOf(p) + TASK_SIZE <= PageOf(q) || PageOf(q) + TASK_SIZE <= PageOf(p)
  {
  }

  lemma FrameIs(m: seq<byte>, p: nat)
    requires |m| >= MEMORY && p < PIDS
    ensures PageOf(p) + TASK_SIZE <= MEMORY && Frames(m)[p] == m[PageOf(p)..PageOf(p) + TASK_SIZE]
  {
  }

  lemma OneFrame(m: seq<byte>, m': seq<byte>, p: nat, q: nat, off: nat, c: seq<byte>)
    requires p + TASK_SIZE <= |m| && q + TASK_SIZE <= |m| && off + |c| <= TASK_SIZE && m' == Splice(m, q + off, c)
    requires p == q || p + TASK_SIZE <= q || q + TASK_SIZE <= p
    ensures |m'| == |m|
    ensures m'[p..p + TASK_SIZE] ==
      if p == q then Splice(m[q..q + TASK_SIZE], off, c) else m[p..p + TASK_SIZE]
  {
  }

  // Following parent links from a block, n times.
  ghost function Ancestor(pcbs: seq<Pcb>, from: Option<nat>, n: nat): Option<nat>
    requires |pcbs| == PIDS
    decreases n
  {
    if n == 0 || from.None? || from.value >= PIDS then from
    else Ancestor(pcbs, pcbs[from.value].parent, n - 1)
  }

  // The parent path from the running process runs down the stack to the root, so it
  // has no cycle, and its pids are the live ones.
  lemma {:induction false} ParentPathIsTheStack(img: Image, root: nat, stack: seq<nat>, pcbs: seq<Pcb>, from: nat,
                                                n: nat)
    requires Linked(img, root, stack, pcbs) && n <= from < |stack|
    ensures Ancestor(pcbs, Some(stack[from]), n) == Some(stack[from - n])
    ensures n > 0 ==> stack[from - n] != stack[from]
  {
    if n > 0 {
      ParentPathIsTheStack(img, root, stack, pcbs, from - 1, n - 1);
    }
  }

  lemma ProcsAreSound(img: Image, root: nat, stack: seq<nat>, pcbs: seq<Pcb>, fd: seq<FileDesc>,
                      frames: seq<seq<byte>>)
    requires Linked(img, root, stack, pcbs) && HasTables(img) && WellFormed(img, fd) && WholeFrames(frames)
    ensures Sound(img, State(Procs(root, stack, pcbs), fd, frames), root)
  {
    hide WellFormed;
  }

  lemma MarkedIsInUse(root: nat, stack: seq<nat>, slots: seq<bool>, pcbs: seq<Pcb>, p: nat)
    requires Pids(stack, root) && |pcbs| == PIDS && Marked(root, stack, slots)
    requires p == root || 3 <= p < PIDS
    ensures slots[p] <==> InUse(Procs(root, stack, pcbs), p)
  {
    var s := Procs(root, stack, pcbs);
    if p in stack {
      var k :| 0 <= k < |stack| && stack[k] == p;
      assert s[k].pid == p;
    }
    if InUse(s, p) {
      var k :| 0 <= k < |s| && s[k].pid == p;
      assert stack[k] == p;
    }
  }

  lemma PushPids(root: nat, stack: seq<nat>, pid: nat)
    requires Pids(stack, root) && pid < PIDS && pid !in stack && (if stack == [] then pid == root else 3 <= pid)
    ensures Pids(stack + [pid], root)
  {
    var up := stack + [pid];
    assert forall k {:trigger up[k]} :: 0 <= k < |up| ==> up[k] == if k < |stack| then stack[k] else pid;
  }

  // Filling a free block and marking its pid puts a process on the stack.
  lemma PushLinks(img: Image, root: nat, stack: seq<nat>, pcbs: seq<Pcb>, slots: seq<bool>, pid: nat, pcb: Pcb)
    requires Linked(img, root, stack, pcbs) && Marked(root, stack, slots)
    requires pid < PIDS && pid !in stack && (if stack == [] then pid == root else 3 <= pid)
    requires pcb.pid == pid && WellFormed(img, pcb.fd)
    requires stack != [] ==> pcb.parent == Some(stack[|stack| - 1])
    ensures Linked(img, root, stack + [pid], pcbs[pid := pcb]) && Marked(root, stack + [pid], slots[pid := true])
  {
    PushPids(root, stack, pid);
    hide WellFormed, Pids;
    var up, blocks := stack + [pid], pcbs[pid := pcb];
    forall k {:trigger up[k]} | 0 <= k < |up|
      ensures up[k] < PIDS && blocks[up[k]].pid == up[k] && WellFormed(img, blocks[up[k]].fd)
      ensures k > 0 ==> blocks[up[k]].parent == Some(up[k - 1])
    {
      PidBound(up, root, k);
      if k < |stack| { assert up[k] == stack[k] != pid; }
    }
  }

  lemma PidBound(stack: seq<nat>, root: nat, k: nat)
    requires Pids(stack, root) && k < |stack|
    ensures stack[k] < PIDS
  {
  }

  lemma PushProcs(root: nat, stack: seq<nat>, pcbs: seq<Pcb>, pid: nat, pcb: Pcb)
    requires Pids(stack, root) && Pids(stack + [pid], root) && |pcbs| == PIDS && pid < PIDS && pid !in stack
    ensures Procs(root, stack + [pid], pcbs[pid := pcb]) ==
      Procs(root, stack, pcbs) + [Proc(pid, pcb.filename, pcb.fd, pcb.haltesp)]
  {
    var up := stack + [pid];
    forall k {:trigger up[k]} | 0 <= k < |stack|
      ensures ProcAt(pcbs[pid := pcb], up[k]) == ProcAt(pcbs, stack[k])
    {
      assert up[k] == stack[k] != pid;
    }
  }

  lemma PopPids(root: nat, stack: seq<nat>)
    requires Pids(stack, root) && stack != []
    ensures Pids(stack[..|stack| - 1], root)
  {
  }

  // Unmarking the last pid takes its process off.
  lemma PopLinks(img: Image, root: nat, stack: seq<nat>, pcbs: seq<Pcb>)
    requires Linked(img, root, stack, pcbs) && stack != []
    ensures Linked(img, root, stack[..|stack| - 1], pcbs)
  {
    PopPids(root, stack);
    hide WellFormed, Pids;
    var down := stack[..|stack| - 1];
    assert forall k {:trigger down[k]} :: 0 <= k < |down| ==> down[k] == stack[k];
  }

  lemma PopMarks(root: nat, stack: seq<nat>, slots: seq<bool>)
    requires Pids(stack, root) && Marked(root, stack, slots) && stack != []
    ensures stack[|stack| - 1] < PIDS && Marked(root, stack[..|stack| - 1], slots[stack[|stack| - 1] := false])
  {
    var n := |stack| - 1;
    PidBound(stack, root, n);
    assert stack == stack[..n] + [stack[n]];
    assert stack[n] !in stack[..n];
  }

  lemma PopProcs(root: nat, stack: seq<nat>, pcbs: seq<Pcb>)
    requires Pids(stack, root) && |pcbs| == PIDS && stack != []
    ensures Pids(stack[..|stack| - 1], root)
    ensures Procs(root, stack[..|stack| - 1], pcbs) == Procs(root, stack, pcbs)[..|stack| - 1]
  {
  }

  // ---- The implementation ----

  type Terminal = t: nat | 1 <= t <= 3 witness 1

  // The call answers -1 when refused and 0 otherwise: at once when all slots are taken,
  // and for a program that was entered when it has halted, whatever its status.  A
  // program that is too long for its page faults while it is loaded.
  datatype Outcome = Refused | Full | Entered | Faulted

  class Kernel {
    const files: Files
    const tables: Tables
    const indicator: Terminal       // the one terminal of the run
    const pcbs: array<Pcb>
    const pnumarr: array<bool>
    const mem: array<byte>          // physical memory
    var pnum: nat
    var curr: Option<nat>           // curr_pcb
    var filename: seq<byte>
    var arg: seq<byte>
    ghost var stack: seq<nat>       // the live pids, root first

    ghost function Root(): nat { indicator - 1 }

    ghost predicate Built() {
      tables.Valid() && pcbs.Length == PIDS && pnumarr.Length == PIDS && mem.Length >= MEMORY
    }

    // The running process is the last of the stack, and its page is mapped.
    ghost predicate Running()
      reads this`stack, this`pnum, this`curr, tables.directory
      requires Built()
    {
      stack != [] ==>
        pnum == stack[|stack| - 1] && curr == Some(pnum) && tables.directory[TASK_ENTRY] == BigPage(PageOf(pnum))
    }

    ghost predicate Valid()
      reads this, files.fd, pcbs, pnumarr, tables.directory, tables.table2
    {
      && Built() && files.Valid() && Running() && NextIsUnmapped()
      && Linked(files.img, Root(), stack, pcbs[..]) && Marked(Root(), stack, pnumarr[..])
    }

    ghost function View(): State
      requires Valid()
      reads this, files.fd, pcbs, pnumarr, mem, tables.directory, tables.table2
    {
      State(Procs(Root(), stack, pcbs[..]), files.fd[..], Frames(mem[..]))
    }

    // The directory entry behind the program's leads to a table whose first page is
    // not present.
    ghost predicate NextIsUnmapped()
      requires Built()
      reads tables.directory, tables.table2
    {
      tables.directory[VIDEO_ENTRY] == SecondTable && tables.table2[0] == 0
    }

    constructor (img: Image, terminal: Terminal, mem: array<byte>)
      requires HasTables(img) && |img| > BLOCK && mem.Length >= MEMORY
      ensures this.mem == mem
      ensures Valid() && stack == [] && indicator == terminal && files.img == img
    {
      files := new Files(img);
      tables := new Tables();
      indicator := terminal;
      pcbs := new Pcb[PIDS](_ => Pcb([], 0, [], None, 0));
      pnumarr := new bool[PIDS](_ => false);
      this.mem := mem;
      pnum, curr, filename, arg, stack := 0, None, [], [], [];
      new;
      tables.FillTable();
      tables.FillDirectory();
    }

    lemma ViewIsSound()
      requires Valid()
      ensures Sound(files.img, View(), Root())
    {
      ProcsAreSound(files.img, Root(), stack, pcbs[..], files.fd[..], Frames(mem[..]));
    }

    // checkFile: the four bytes that an executable starts with.
    method CheckFile(name: seq<byte>) returns (r: int, inode: nat)
      requires files.Valid() && Without(name, NUL)
      requires var i := Lookup(files.img, name, 0); i.Some? ==> ValidInode(files.img, EntryOf(files.img, i.value).inode)
      ensures r == 0 || r == -1
      ensures r == 0 <==> Executable(files.img, name)
      ensures r == 0 ==> ValidInode(files.img, inode)
      ensures r == 0 ==> inode == EntryOf(files.img, Lookup(files.img, name, 0).value).inode
    {
      hide Word, Content, Lookup;
      var found, dentry := ReadDentryByName(files.img, name);
      if found != 0 { return -1, 0; }
      inode := dentry.value.inode;
      var buf := new byte[4](_ => NUL);
      var n := ReadData(files.img, inode, 0, buf, 0, 4);
      ghost var c := Content(files.img, inode);
      assert |c| >= 4 ==> buf[..] == c[..4];
      assert |c| < 4 ==> buf[3] == NUL;
      if buf[0] == 0x7F && buf[1] == 0x45 && buf[2] == 0x4C && buf[3] == 0x46 {
        assert c[..4] == MAGIC;
        return 0, inode;
      }
      return -1, inode;
    }

    // setPnum: the terminal's own pid, or the first free one of 3, 4, 5.
    method SetPnum(ghost procs: seq<Proc>) returns (r: int)
      requires pnumarr.Length == PIDS
      requires forall p {:trigger pnumarr[p]} :: p == Root() || 3 <= p < PIDS ==> (pnumarr[p] <==> InUse(procs, p))
      modifies this`pnum, pnumarr
      ensures var free := Slot(procs, Root());
        if free.None? then r == -1 && pnum == old(pnum) && pnumarr[..] == old(pnumarr[..])
        else r == 0 && pnum == free.value && !old(pnumarr[..])[pnum] && pnumarr[..] == old(pnumarr[..])[pnum := true]
    {
      hide InUse;
      if !pnumarr[indicator - 1] {
        pnumarr[indicator - 1] := true;
        pnum := indicator - 1;
        return 0;
      }
      var i := 3;
      while i < 6
        invariant 3 <= i <= 6
        invariant forall j {:trigger pnumarr[j]} :: 3 <= j < i ==> pnumarr[j]
      {
        if !pnumarr[i] {
          assert i > 3 ==> pnumarr[3];
          assert i > 4 ==> pnumarr[4];
          pnumarr[i] := true;
          pnum := i;
          return 0;
        }
        i := i + 1;
      }
      assert pnumarr[3] && pnumarr[4] && pnumarr[5];
      return -1;
    }

    // The running program's page is mapped: every byte of it, and where it is.
    lemma TaskPage(pid: nat, off: nat)
      requires Built() && tables.directory[TASK_ENTRY] == BigPage(PageOf(pid)) && off < TASK_SIZE
      ensures (TASK_VIRTUAL + off) / BIG_PAGE == TASK_ENTRY
      ensures tables.Translate(TASK_VIRTUAL + off) == Physical(PageOf(pid) + off)
    {
    }

    // loadFile: the program goes to its place in the mapped page.  The bytes that the
    // page has no room for go to the page behind it, and the first of them faults.
    method LoadFile(inode: nat) returns (fault: bool)
      requires Built() && NextIsUnmapped() && pnum < PIDS && ValidInode(files.img, inode)
      requires tables.directory[TASK_ENTRY] == BigPage(PageOf(pnum))
      modifies mem
      ensures fault <==> |Content(files.img, inode)| > ROOM
      ensures var c := Content(files.img, inode);
        var was := old(Frames(mem[..]));
        Frames(mem[..]) == was[pnum := Loaded(was[pnum], if fault then c[..ROOM] else c)]
    {
      assert HasTables(files.img) && InodeIn(files.img, inode) && inode <= Inodes(files.img);
      assert |Content(files.img, inode)| == Size(files.img, inode);
      ghost var was, c := mem[..], Content(files.img, inode);
      hide Content, ValidInode, Frames, Splice, HasTables, Word, Chunk, Inodes, Size, InodeIn;
      TaskPage(pnum, LOAD_OFF);
      BehindTask();
      FirstChunk(c);
      var at := tables.Translate(EXEC_LOCATION).at;
      var _ := ReadData(files.img, inode, 0, mem, at, ROOM);
      OneFrameChanged(was, mem[..], pnum, LOAD_OFF, if |c| > ROOM then c[..ROOM] else c);
      fault := Size(files.img, inode) > ROOM && tables.Translate(EXEC_LOCATION + ROOM).Fault?;
    }

    lemma FirstChunk(c: seq<byte>)
      ensures Chunk(c, 0, ROOM) == if |c| > ROOM then c[..ROOM] else c
    {
    }

    lemma BehindTask()
      requires Built() && NextIsUnmapped()
      ensures (EXEC_LOCATION + ROOM) / BIG_PAGE < ENTRIES && tables.Translate(EXEC_LOCATION + ROOM) == Fault
    {
    }

    // createPCB, up to the switch to the program: the new block remembers the
    // descriptor table, its parent, and the stack on which execute waits.
    method CreatePCB(esp: nat)
      requires pcbs.Length == PIDS && pnum < PIDS
      modifies this`curr, pcbs
      ensures curr == Some(pnum)
      ensures pcbs[..] == old(pcbs[..])[pnum := Pcb(files.fd[..], pnum, filename, old(curr), esp)]
    {
      pcbs[pnum] := Pcb(files.fd[..], pnum, filename, curr, esp);
      curr := Some(pnum);
    }

    // The part of execute after a slot is found.
    method Launch(inode: nat, esp: nat) returns (fault: bool)
      requires Built() && NextIsUnmapped() && files.Valid() && ValidInode(files.img, inode) && pnum < PIDS
      modifies this`curr, pcbs, files.fd, mem, tables.directory
      ensures tables.directory[..] == old(tables.directory[..])[TASK_ENTRY := BigPage(PageOf(pnum))]
      ensures fault <==> |Content(files.img, inode)| > ROOM
      ensures var c := Content(files.img, inode);
        var was := old(Frames(mem[..]));
        Frames(mem[..]) == was[pnum := Loaded(was[pnum], if fault then c[..ROOM] else c)]
      ensures fault ==> curr == old(curr) && pcbs[..] == old(pcbs[..]) && files.fd[..] == old(files.fd[..])
      ensures !fault ==> curr == Some(pnum) && files.Valid() && WellFormed(files.img, files.fd[..])
      ensures !fault ==> files.fd[..] == WithTerminal(old(files.fd[..]))
      ensures !fault ==> pcbs[..] == old(pcbs[..])[pnum := Pcb(files.fd[..], pnum, filename, old(curr), esp)]
    {
      hide Content, ValidInode, Frames, Loaded;
      tables.SetupPagingDirectory(KERNEL + TASK_SIZE * (pnum + 1));
      fault := LoadFile(inode);
      if fault { return; }
      files.InitFotp();
      CreatePCB(esp);
    }

    // execute, on a command that parse_arg has split.  A refused or crowded-out call
    // changes nothing but the two parsed strings.
    method Execute(word: seq<byte>, argument: seq<byte>, esp: nat) returns (o: Outcome, value: int)
      requires Valid() && Without(word, NUL)
      requires var i := Lookup(files.img, word, 0); i.Some? ==> ValidInode(files.img, EntryOf(files.img, i.value).inode)
      modifies this, files.fd, pcbs, pnumarr, mem, tables.directory
      ensures filename == word && arg == argument && Sound(files.img, old(View()), Root())
      ensures o == (if !Executable(files.img, word) then Refused
                    else if Slot(old(View()).stack, Root()).None? then Full
                    else if !Fits(files.img, word) then Faulted else Entered)
      ensures value == if o == Refused then -1 else 0
      ensures o == Refused || o == Full ==>
        && stack == old(stack) && curr == old(curr) && pnum == old(pnum)
        && pnumarr[..] == old(pnumarr[..]) && tables.directory[..] == old(tables.directory[..])
      ensures o != Faulted ==> Valid()
      ensures o == Refused || o == Full ==> View() == old(View())
      ensures o == Entered ==> pnum < PIDS && stack == old(stack) + [pnum] && pcbs[pnum].parent == old(curr)
      ensures o == Entered ==> CanStep(files.img, old(View()), Exec(word, esp))
      ensures o == Entered ==> View() == Step(files.img, old(View()), Root(), Exec(word, esp))
      ensures o == Faulted ==> stack == old(stack) && curr == old(curr) && pnum < PIDS && pnum !in stack
      ensures o == Faulted ==> forall p {:trigger Frames(mem[..])[p]} :: 0 <= p < PIDS && p != pnum ==>
        Frames(mem[..])[p] == old(Frames(mem[..]))[p]
    {
      hide WellFormed, Slot, Executable, ValidInode, WithTerminal, Procs, Linked, Marked, InUse, OpenIn, Frames, Loaded;
      ViewIsSound();
      filename := word;
      arg := argument;
      var bad, inode := CheckFile(filename);
      if bad != 0 { return Refused, -1; }
      ghost var s := View();
      forall p {:trigger pnumarr[p]} | p == Root() || 3 <= p < PIDS ensures pnumarr[p] <==> InUse(s.stack, p) {
        LinkedPids(files.img, Root(), stack, pcbs[..]);
        MarkedIsInUse(Root(), stack, pnumarr[..], pcbs[..], p);
      }
      ghost var slots := pnumarr[..];
      var none := SetPnum(s.stack);
      if none != 0 { return Full, 0; }
      SlotIsFree(files.img, s, Root());
      assert pnumarr[..][pnum := false] == slots;
      var fault := Enter(inode, esp, s);
      return if fault then Faulted else Entered, 0;
    }

    // A program in a free slot: the process goes on the stack, if its page has room.
    method Enter(inode: nat, esp: nat, ghost s: State) returns (fault: bool)
      requires Built() && NextIsUnmapped() && files.Valid() && ValidInode(files.img, inode)
      requires Linked(files.img, Root(), stack, pcbs[..])
      requires s == State(Procs(Root(), stack, pcbs[..]), files.fd[..], Frames(mem[..]))
      requires pnum < PIDS && !InUse(s.stack, pnum) && (if stack == [] then pnum == Root() else 3 <= pnum)
      requires pnumarr[pnum] && Marked(Root(), stack, pnumarr[..][pnum := false])
      requires stack != [] ==> curr == Some(stack[|stack| - 1])
      modifies this`curr, this`stack, pcbs, files.fd, mem, tables.directory
      ensures fault <==> |Content(files.img, inode)| > ROOM
      ensures fault ==> stack == old(stack) && curr == old(curr) && pnum !in stack
      ensures fault ==> forall p {:trigger Frames(mem[..])[p]} :: 0 <= p < PIDS && p != pnum ==>
        Frames(mem[..])[p] == s.frames[p]
      ensures !fault ==> Valid() && stack == old(stack) + [pnum] && pcbs[pnum].parent == old(curr)
      ensures !fault ==>
        View() == State(s.stack + [Proc(pnum, filename, WithTerminal(s.fd), esp)], WithTerminal(s.fd),
                        s.frames[pnum := Loaded(s.frames[pnum], Content(files.img, inode))])
    {
      hide WellFormed, ValidInode, WithTerminal, Procs, Linked, Marked, OpenIn, Content, Files.Valid, HasTables;
      hide Frames, Loaded;
      LinkedPids(files.img, Root(), stack, pcbs[..]);
      NotInStack(Root(), stack, pcbs[..], pnum);
      ghost var blocks, slots := pcbs[..], pnumarr[..][pnum := false];
      fault := Launch(inode, esp);
      if fault { return; }
      ghost var pcb := pcbs[pnum];
      PushLinks(files.img, Root(), stack, blocks, slots, pnum, pcb);
      PushPids(Root(), stack, pnum);
      PushProcs(Root(), stack, blocks, pnum, pcb);
      assert slots[pnum := true] == pnumarr[..];
      stack := stack + [pnum];
    }

    lemma NotInStack(root: nat, s: seq<nat>, blocks: seq<Pcb>, pid: nat)
      requires Pids(s, root) && |blocks| == PIDS && !InUse(Procs(root, s, blocks), pid)
      ensures pid !in s
    {
      var procs := Procs(root, s, blocks);
      forall k | 0 <= k < |s| ensures s[k] != pid {
        assert procs[k].pid == s[k];
      }
    }

    lemma LinkedPids(img: Image, root: nat, s: seq<nat>, blocks: seq<Pcb>)
      requires Linked(img, root, s, blocks)
      ensures Pids(s, root) && |blocks| == PIDS
    {
    }

    // halt.  A root process that halts executes the shell in its own slot, with its
    // own old block as parent.  Any other gives its slot up and goes back to its
    // parent: the answer is the kernel stack on which the parent's execute waits, and
    // what that execute returns, which is createPCB's 0 whatever the status is.
    method Halt(status: byte, esp: nat) returns (resumed: Option<nat>, value: int)
      requires Valid() && stack != [] && CanStep(files.img, View(), Event.Halt(esp))
      modifies this, files.fd, pcbs, pnumarr, mem, tables.directory
      ensures Valid() && Sound(files.img, old(View()), Root())
      ensures View() == Step(files.img, old(View()), Root(), Event.Halt(esp))
      ensures |old(stack)| == 1 ==> resumed == None && stack == old(stack) && pcbs[pnum].parent == Some(pnum)
      ensures |old(stack)| > 1 ==>
        && resumed == Some(old(View()).stack[|old(stack)| - 1].esp) && value == 0
        && stack == old(stack)[..|old(stack)| - 1] && curr == old(pcbs[pnum].parent)
        && filename == pcbs[pnum].filename
    {
      hide WellFormed, Executable, Procs, Linked, Marked, WithTerminal, ProgramOf, InUse, Slot, Step;
      ViewIsSound();
      LinkedPids(files.img, Root(), stack, pcbs[..]);
      BlockBelow(files.img, Root(), stack, pcbs[..]);
      PopMarks(Root(), stack, pnumarr[..]);
      pnumarr[pnum] := false;
      if pnum < 3 {
        Restart(esp, old(View()));
        return None, 0;
      }
      var waiting := Return(old(View()), esp);
      return Some(waiting), 0;
    }

    // The root's halt, its slot given up: it executes the shell.
    method Restart(esp: nat, ghost was: State)
      requires Built() && files.Valid() && stack == [Root()] && curr == Some(Root())
      requires Linked(files.img, Root(), stack, pcbs[..]) && Marked(Root(), [], pnumarr[..])
      requires was == State(Procs(Root(), stack, pcbs[..]), files.fd[..], Frames(mem[..]))
      requires Sound(files.img, was, Root()) && Executable(files.img, SHELL) && Fits(files.img, SHELL)
      requires NextIsUnmapped()
      modifies this, files.fd, pcbs, pnumarr, mem, tables.directory
      ensures Valid() && stack == [Root()] && pcbs[pnum].parent == Some(pnum)
      ensures View() == Step(files.img, was, Root(), Event.Halt(esp))
    {
      hide WellFormed, WithTerminal, ProgramOf, InUse, Step;
      PopLinks(files.img, Root(), stack, pcbs[..]);
      stack := [];
      assert Procs(Root(), [], pcbs[..]) == [];
      hide Procs, Linked, Marked;
      RestartIsExec(files.img, was, Root(), esp);
      assert Executable(files.img, SHELL);
      var _, _ := Execute(SHELL, [], esp);
      OnlyRoot(files.img, Root(), stack, pcbs[..], [Root()]);
    }

    // Any other halt, its slot given up: back to the parent.
    method Return(ghost was: State, ghost any: nat) returns (esp: nat)
      requires Built() && NextIsUnmapped() && files.Valid() && |stack| > 1 && curr == Some(stack[|stack| - 1])
      requires Linked(files.img, Root(), stack, pcbs[..]) && Marked(Root(), stack[..|stack| - 1], pnumarr[..])
      requires was == State(Procs(Root(), stack, pcbs[..]), files.fd[..], Frames(mem[..]))
      requires Sound(files.img, was, Root())
      modifies this`curr, this`pnum, this`filename, this`stack, files.fd, tables.directory
      ensures Valid() && stack == old(stack)[..|old(stack)| - 1]
      ensures esp == was.stack[|was.stack| - 1].esp
      ensures curr == old(pcbs[curr.value].parent) && filename == pcbs[pnum].filename
      ensures CanStep(files.img, was, Event.Halt(any)) && View() == Step(files.img, was, Root(), Event.Halt(any))
    {
      hide WellFormed, Marked, Linked, Sound, Step, CanStep, Procs, Executable;
      ReturnPlan(files.img, Root(), stack, pcbs[..], was, any);
      esp := pcbs[curr.value].haltesp;
      BackToParent(stack[|stack| - 2]);
      stack := stack[..|stack| - 1];
    }

    // What the halt of a non-root process has to reach, in terms of the block below.
    lemma ReturnPlan(img: Image, root: nat, s: seq<nat>, blocks: seq<Pcb>, was: State, any: nat)
      requires |s| > 1 && Linked(img, root, s, blocks) && was.stack == Procs(root, s, blocks)
      requires Sound(img, was, root)
      ensures var n := |s| - 1; var p, q := s[n], s[n - 1];
        && p < PIDS && q < PIDS && blocks[p].parent == Some(q) && blocks[q].pid == q && WellFormed(img, blocks[q].fd)
        && Linked(img, root, s[..n], blocks) && was.stack[n].esp == blocks[p].haltesp
        && CanStep(img, was, Event.Halt(any))
        && Step(img, was, root, Event.Halt(any)) == State(Procs(root, s[..n], blocks), blocks[q].fd, was.frames)
    {
      hide WellFormed, ProgramOf, Executable;
      BlockBelow(img, root, s, blocks);
      PopLinks(img, root, s, blocks);
      PopProcs(root, s, blocks);
      HaltPops(img, was, root, any);
    }

    lemma RestartIsExec(img: Image, s: State, root: nat, esp: nat)
      requires Sound(img, s, root) && |s.stack| == 1 && Executable(img, SHELL) && Fits(img, SHELL)
      ensures Sound(img, s.(stack := []), root)
      ensures Slot([], root) == Some(root) && s.stack[..0] == []
      ensures Step(img, s.(stack := []), root, Exec(SHELL, esp)) == Step(img, s, root, Event.Halt(esp))
    {
    }

    lemma OnlyRoot(img: Image, root: nat, now: seq<nat>, blocks: seq<Pcb>, before: seq<nat>)
      requires Linked(img, root, now, blocks) && Pids(before, root) && |now| == |before| == 1
      ensures now == before
    {
    }

    // Above the root there is always a block below, which is sound.
    lemma BlockBelow(img: Image, root: nat, s: seq<nat>, blocks: seq<Pcb>)
      requires Linked(img, root, s, blocks)
      ensures s != [] ==> s[|s| - 1] < PIDS
      ensures |s| == 1 ==> s[0] == root < 3
      ensures |s| > 1 ==> s[|s| - 1] >= 3
      ensures |s| > 1 ==> var p, q := s[|s| - 1], s[|s| - 2];
        q < PIDS && blocks[p].parent == Some(q) && blocks[q].pid == q && WellFormed(img, blocks[q].fd)
    {
    }

    // The parent's pid, descriptor table, name and page come back.
    method BackToParent(ghost q: nat)
      requires Built() && files.Valid() && curr.Some? && curr.value < PIDS && q < PIDS
      requires pcbs[curr.value].parent == Some(q) && pcbs[q].pid == q && WellFormed(files.img, pcbs[q].fd)
      modifies this`curr, this`pnum, this`filename, files.fd, tables.directory
      ensures files.Valid() && files.fd[..] == pcbs[q].fd
      ensures curr == Some(q) && pnum == q && filename == pcbs[q].filename
      ensures tables.directory[..] == old(tables.directory[..])[TASK_ENTRY := BigPage(PageOf(q))]
    {
      hide WellFormed, HasTables, OpenIn;
      var j := 2;
      while j < 8
        invariant 2 <= j <= 8 && files.Valid()
        modifies files.fd
      {
        var _ := files.Close(j);
        j := j + 1;
      }
      curr := pcbs[curr.value].parent;
      pnum := pcbs[curr.value].pid;
      files.Restore(pcbs[curr.value].fd);
      filename := pcbs[curr.value].filename;
      tables.SetupPagingDirectory(KERNEL + TASK_SIZE * (pnum + 1));
    }

    // A store of the running program, through the page tables.
    method StoreTo(off: nat, v: byte)
      requires Valid() && stack != [] && off < TASK_SIZE
      modifies mem
      ensures Valid() && Sound(files.img, old(View()), Root())
      ensures CanStep(files.img, old(View()), Store(off, v))
      ensures View() == Step(files.img, old(View()), Root(), Store(off, v))
    {
      hide Frames, Linked, Marked, Files.Valid, WellFormed;
      ViewIsSound();
      LinkedPids(files.img, Root(), stack, pcbs[..]);
      PidBound(stack, Root(), |stack| - 1);
      TaskPage(pnum, off);
      ghost var was := mem[..];
      mem[tables.Translate(TASK_VIRTUAL + off).at] := v;
      assert mem[..] == Splice(was, PageOf(pnum) + off, [v]);
      OneFrameChanged(was, mem[..], pnum, off, [v]);
    }

    // What the running program sees at its addresses is its own page: the 4 MB that
    // start at 8 MB for pid 0, and 4 MB further for each pid after it.
    lemma SeesOwnPage(off: nat)
      requires Valid() && stack != [] && off < TASK_SIZE
      ensures pnum == stack[|stack| - 1] < PIDS && (TASK_VIRTUAL + off) / BIG_PAGE < ENTRIES
      ensures tables.Translate(TASK_VIRTUAL + off) == Physical(0x80_0000 + 0x40_0000 * pnum + off)
      ensures mem[0x80_0000 + 0x40_0000 * pnum + off] == View().frames[View().stack[|stack| - 1].pid][off]
    {
      LinkedPids(files.img, Root(), stack, pcbs[..]);
      PidBound(stack, Root(), |stack| - 1);
      TaskPage(pnum, off);
    }

    // A whole run.  `argument` text plays no part in the nesting; Use stands for any
    // descriptor calls of the running program.
    method Serve(events: seq<Event>)
      requires Valid() && CanRun(files.img, View(), Root(), events)
      requires forall i :: 0 <= i < |events| && events[i].Exec? ==>
        && Without(events[i].name, NUL)
        && var d := Lookup(files.img, events[i].name, 0);
           d.Some? ==> ValidInode(files.img, EntryOf(files.img, d.value).inode)
      modifies this, files.fd, pcbs, pnumarr, mem, tables.directory
      ensures Valid() && View() == RunAll(files.img, old(View()), Root(), events)
    {
      hide Step, CanStep, Linked, Marked, Procs, WellFormed, Sound, HasTables, Executable, Slot;
      ghost var s := View();
      var i := 0;
      while i < |events|
        invariant 0 <= i <= |events| && Valid()
        invariant CanRun(files.img, View(), Root(), events[i..])
        invariant RunAll(files.img, View(), Root(), events[i..]) == RunAll(files.img, s, Root(), events)
      {
        assert events[i..][0] == events[i] && events[i..][1..] == events[i + 1..];
        Handle(events[i]);
        i := i + 1;
      }
    }

    method Handle(e: Event)
      requires Valid() && HasTables(files.img) && CanStep(files.img, View(), e)
      requires e.Exec? ==>
        && Without(e.name, NUL)
        && var d := Lookup(files.img, e.name, 0); d.Some? ==> ValidInode(files.img, EntryOf(files.img, d.value).inode)
      modifies this, files.fd, pcbs, pnumarr, mem, tables.directory
      ensures Valid() && Sound(files.img, old(View()), Root()) && View() == Step(files.img, old(View()), Root(), e)
    {
      hide Linked, Marked, Procs, WellFormed, Executable, Slot;
      ViewIsSound();
      match e {
        case Exec(name, esp) => { var _, _ := Execute(name, [], esp); }
        case Halt(esp) => { var _, _ := Halt(0, esp); }
        case Use(fd) => files.Restore(fd);
        case Store(off, v) => StoreTo(off, v);
      }
    }
  }
}
