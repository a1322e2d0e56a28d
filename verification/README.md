# Deadlocked: a verified model

Deadlocked is a small 32-bit x86 kernel with a read-only block filesystem, three text
terminals that share one video frame, a shell, `grep` and an animated `fish`. This
project models the parts of it whose behaviour has to be worked out across several
functions, and proves what those parts are for. Code that changes state in the C and
assembly sources is written here as methods over arrays and classes; each method is
proved against a specification on values, and the properties are lemmas about that
specification.

| file | models |
|---|---|
| `CString.dfy` | bytes, C strings inside buffers, the string helpers of the user library |
| `Disk.dfy` | a disk put together from its parts, and what reading it gives back |
| `FileSystem.dfy` | the disk image, `read_data`, directory entries and their lookup |
| `Descriptors.dfy`, `DescriptorRuns.dfy` | the eight file descriptors: `open`, `close`, `read`, `file_read`, `directory_read` |
| `GrepSpec.dfy`, `GrepBuffer.dfy` | what `grep` is to print, what its buffer can see, and the two edges of that buffer |
| `Grep.dfy`, `GrepScreen.dfy` | `grep`: the streaming line buffer, the loop over the directory, and the screen afterwards |
| `Memory.dfy` | `memcpy` with its aligned head, doublewords and tail; `memset`; `memmove` |
| `Console.dfy` | `putc`: drawing, wrapping, scrolling, backspace, the line buffer |
| `ScreenLog.dfy` | the screen as a window on an unbounded wrapped text |
| `LineEditor.dfy` | keystrokes during `terminal_read`: echo, editing, delivery |
| `Paging.dfy`, `Terminals.dfy` | page tables; three terminals on one frame |
| `Arithmetic.dfy` | division by a divisor that is not a constant |
| `BlinkSpec.dfy`, `Blink.dfy` | the fish's blink list: its meaning, and the linked list that has it |
| `Fish.dfy`, `Animation.dfy` | `add_frames`: two picture files zipped into blink commands; the frames that `main` then shows in turn |
| `Processes.dfy` | `execute` and `halt` on one terminal, with the programs in physical memory behind the page tables |
| `Numbers.dfy` | `itoa`, `strrev`, the number cases of `printf` |
| `Commands.dfy`, `Emulator.dfy` | `parse_arg` and the kernel's `getargs`; the emulator's tokenizer and joiner |

## Where the code and its promise part

Each of these is stated with the exact condition under which the promise holds. The inputs
named here on which it does not hold are lemmas and methods of the project too.

- **grep and long lines.** A line longer than the 1024-byte buffer is searched in pieces
  of 1024. A file is reported line by line for every pattern exactly when none of its
  lines is longer than 1024 bytes (`GrepSpec.StreamingIsExactIffLinesFit`); a line of 1024
  bytes still works. The first byte of the first long line is a pattern that tells
  (`GrepSpec.OneByteTells`). The patterns that the kernel hands over are the strings of 1 to
  31 bytes without a space (`Commands.ArgumentsOfCommands`); for those patterns longer lines are harmless exactly when they hold nothing but
  spaces (`GrepSpec.ArgumentsSeeIffFitOrBlank`).
- **grep and the byte behind its buffer.** `data[1024]` is looked at before it is written. If
  it happens to be a newline, the text is torn at the end of the first full block of 1024
  bytes that does not end in a newline. Some pattern tells exactly when a line runs over that
  place and began inside the block (`GrepBuffer.TearIsHarmlessIff`); a newline and 1024
  letters are a file that is torn (`GrepBuffer.OneLetterIsTornOff`).
- **grep and NUL bytes.** A partial line that is moved to the front of the buffer is copied up
  to its first NUL only; behind that the search sees what stood there before. Whatever a
  file holds, what is printed are beginnings of its own pieces, each up to its first NUL, in
  order; an occurrence before the first NUL is never missed, and a piece without NUL is
  printed exactly when it contains the pattern (`GrepBuffer.StretchIsFair`).
- **One flag for three terminals.** The repository promises three terminals with their own
  keyboard buffers, but they share `tflag`. A terminal is, throughout a run, what its own
  events alone would make of it exactly when no byte that counts for its line finds the flag
  other than its own (`Terminals.TerminalsAreIndependentIff`). It is enough that no other
  terminal has begun a read or had a line break since its own last one
  (`Terminals.QuietIsUndisturbed`). A break on terminal 2 while terminal 1 reads makes the
  next letter typed on terminal 1 get lost (`Terminals.BreakElsewhereLosesLetter`), and what a
  first visit to terminal 2 prints meanwhile is recorded as if typed
  (`Terminals.FirstVisitIsRecorded`).
- **Echo and the left edge.** Backspacing takes `screen_x` below zero; the position
  `80*y + x` stays right until x passes -80. For a read that starts in column 0..32 the
  cursor agrees with the line buffer after every key sequence, and for a later column there
  is one after which it does not (`LineEditor.CursorWorksIffEarlyStart`).
- **Backspace at 128.** A backspace on a full line takes two bytes from the line and two
  columns from the cursor but erases nothing on the screen, since the blank that should
  overwrite them is dropped. What then stays behind the cursor is the `tail` of
  `LineEditor.Edit`. A key leaves a blank tail not blank exactly when it is a backspace on a
  full line whose last two bytes are not both spaces (`LineEditor.TailIsBlankIff`, over whole
  runs `TailStaysBlankIff`); after 128 letters and a backspace two letters still stand on the
  screen (`LineEditor.FullBackspaceLeavesTwo`).
- **memcpy on overlapping regions.** Doublewords make the result differ from a byte copy
  for some contents exactly when the destination is 1 to 3 bytes above the source and at
  least one doubleword is moved (`Memory.FastIsByteCopyIff`).
- **Blink lengths.** The countdown is tested as a signed 16-bit number: a length outside
  1..32768 acts as 1 (`BlinkSpec.BlinkIsPeriodic`, through `Effective`). A character is on for
  the first on-length ticks of every period, at all times, exactly when both lengths are in
  that range (`BlinkSpec.LengthsCountIff`).
- **Blink location 0.** A slot counts as free when its location is 0. An add on a valid list
  leaves a valid list exactly for another location or on a full pool
  (`BlinkEngine.Engine.IoctlAdd`); otherwise the next add gets the same slot, and the node is
  its own successor (`BlinkEngine.ZeroLocationMakesCycle`).
- **sync** draws the off character whatever the status is. For a target alone at its location
  the screen is right after the sync exactly when the source is off or the target's two
  characters are the same (`BlinkSpec.SyncShowsIff`). It becomes right at the next toggle
  (`BlinkSpec.ToggleShows`), so over any run that leaves the target alone it is right exactly
  under that condition or once the source's countdown has run out
  (`BlinkSpec.SyncShowsAfterCountdownIff`); `BlinkSpec.SyncShowsTheWrongOne` is an input.
- **Descriptors after halt.** A parent gets back the table it was created with. It finds
  its descriptors as it left them, after any run of the child, exactly when they are that
  table (`Processes.DescriptorsSurviveIff`); a file that a program opens before it executes
  another one is lost (`Processes.OpenedFileIsLost`). The child's status is lost: `execute` answers 0. The
  root's `halt` starts a new shell that is its own parent (`Processes.Kernel.Halt`).
- **Long programs.** A page has 0x3B8000 bytes behind the place where a program is loaded. A
  longer program runs into a page that is not present while it is loaded, although its slot is
  already taken; exactly those fault (`Processes.Kernel.Execute`).
- **Stale command bytes.** `parse_arg` reads on behind the terminator until 32 bytes without
  a space have been copied. The argument is taken from the command exactly when the bytes
  behind the terminator, as far as that window reaches, hold no space
  (`Commands.WindowOfCommand`); a buffer reused for a shorter command can break this
  (`Commands.StaleSpaceIsRead`).
- **Negative buffer sizes.** The kernel's `getargs` compares as unsigned numbers, so a
  negative size counts as enough room (`Commands.Getargs`).
- **The joiner's terminator.** `ece391_getargs` copies a word with its terminator before it
  notices that the room is full. The byte behind the room becomes NUL exactly when some prefix
  of the words, joined, takes all of the room, and the answer is then -1; otherwise that byte
  stays (`Emulator.Getargs`). `Emulator.FullRoomIsOverrun` is an input.

## Assumptions

- Address translation reads the current page table; a stale TLB entry is not modelled.
- The uninitialised buffer of `grep` holds any bytes at the start of each call of
  `do_one_file`.
- A file whose inode is used is well formed: it has at most 1023 blocks, and their numbers lie
  inside the image. `read_data` also lets the inode count itself through; the first data block
  is then taken for an inode, here as there.
- The disk image and the kernel's own tables lie outside the pages of the programs.
- Interrupts arrive between keystrokes, console bytes and terminal switches, not inside one.
- Stack frames: uninitialised bytes that `checkFile` compares for files below four bytes are
  taken to be zero.

## Model

| member | source | states |
|---|---|---|
| FileSystem.ReadData | student-distrib/filesystem.c:94-117 | the bytes copied and their count are the slice of the file's flat content at the offset, cut at its end; nothing else in the buffer changes; -1 for a missing buffer or an inode above the count |
| FileSystem.BlocksAt | student-distrib/filesystem.c:99-111 | byte i of the concatenated data blocks is byte i mod 4096 of the block that entry i / 4096 of the inode names |
| FileSystem.ContentAt | student-distrib/filesystem.c:99-111 | the flat content, byte by byte, through the block numbers |
| Disk.BuiltIsLaid | student-distrib/filesystem.h:20-42 | for any entries, nodes and blocks there is an image with that layout: little-endian words, inode n at 4096*(1+n), block j at 4096*(1+N+j) |
| Disk.ContentIsBytes | student-distrib/filesystem.c:94-117 | on such an image the content of file n is its blocks, in the order of its numbers, cut at its length |
| Disk.ReadFile | student-distrib/filesystem.c:94-117 | read_data on it delivers exactly the requested slice of those bytes, cut at the length, and touches nothing else in the buffer |
| Disk.OpenAndRead | student-distrib/syscall.c:51-209 | opening an entry by name and reading: a type 2 entry gives the bytes of its own inode, the directory its first name, the clock nothing, other types inode 0 |
| FileSystem.ChunksReassemble | student-distrib/filesystem.c:105-124 | for any request sizes, the chunks read one after another concatenate to the file's stretch between the first and the last position |
| FileSystem.EmptyChunkMeansAll | student-distrib/filesystem.c:107-109 | an empty chunk for a positive request means that everything up to the end has been delivered |
| FileSystem.NameDiffers | student-distrib/lib.c:646-664 | strncmp on a directory name of at most 32 bytes answers 0 exactly for the name cut to 32 bytes |
| FileSystem.ReadDentryByName | student-distrib/filesystem.c:13-50 | the first entry whose name is the given one cut to 32 bytes, or -1 exactly when there is none |
| FileSystem.ReadDentryByIndex | student-distrib/filesystem.c:57-82 | the entry at an index below the entry count, -1 otherwise |
| FileSystem.CopyName | student-distrib/lib.c:696-711 | strncpy of a directory name writes the name and pads it with NULs to 32 bytes |
| FileSystem.PaddedReadsBack | student-distrib/filesystem.c:125-133 | a padded name with a terminator behind it reads back as the name, also at the full 32 bytes |
| FileSystem.ListedNameIsFound | student-distrib/filesystem.c:13-82 | looking up a listed name finds an entry of that name, and the listed entry itself exactly when no earlier entry has the name |
| Descriptors.Files.CreateFD | student-distrib/syscall.c:303-323 | the lowest free descriptor of 2..7 gets the entry at position 0, or -1 exactly when all six are open; the others stay |
| Descriptors.Files.Open | student-distrib/syscall.c:51-55 | the table becomes the old map with the lowest free descriptor added; -1 exactly for an unknown name or a full table |
| Descriptors.Files.Close | student-distrib/syscall.c:64-71 | an open descriptor from 2 up leaves the map, nothing else changes; -1 otherwise |
| Descriptors.Files.FileRead | student-distrib/filesystem.c:119-124 | delivers the next chunk of the file and moves this descriptor's position by its length, only this one's |
| Descriptors.Files.DirectoryRead | student-distrib/filesystem.c:125-133 | delivers the next entry's padded name and moves on by one, nothing for ever once all are listed |
| Descriptors.Files.Read | student-distrib/syscall.c:205-209 | -1 without a change for closed and unknown descriptors and a missing buffer; else dispatches to the file, directory or clock, and leaves every other descriptor as it was |
| Descriptors.Files.InitFotp | student-distrib/syscall.c:256-294 | descriptors 0 and 1 become the terminal's, the other six stay |
| DescriptorRuns.OpenDescriptorIsItsOwn | student-distrib/syscall.c:51-209 | over any run of open, read and close, an open descriptor that is not closed ends, and has handed over, what its own reads alone give |
| DescriptorRuns.FileComesOutWhole | student-distrib/filesystem.c:94-124 | in any such run the bytes handed over through an open file are the file from where it stood to where it stands |
| DescriptorRuns.DirectoryReadsList | student-distrib/filesystem.c:125-133 | repeated directory reads give the names in order, one each, then nothing for ever |
| DescriptorRuns.ListedEntryIsFound | student-distrib/filesystem.c:13-133 | with distinct names, looking up the k-th name handed over, with a terminator behind its 32 bytes, finds entry k |
| DescriptorRuns.Perform | student-distrib/syscall.c:51-209 | the system calls do what the finite map does; open answers the lowest free of 2..7, or -1 exactly when all six are in use or the name is unknown; close and read answer -1 exactly for what is not open to them |
| DescriptorRuns.Serve | student-distrib/syscall.c:51-209 | any run of the system calls refines the run on the map, and the bytes found in the buffer after the reads through a descriptor are the ones that run hands over |
| Grep.SearchLine | syscalls/ece391grep.c:40-51 | one line, NUL bytes in it or not, is reported once, prefixed by the file's name and up to its first NUL, exactly when the pattern occurs in it |
| GrepSpec.ContainsMeans | syscalls/ece391grep.c:42-44 | a pattern occurs in a line exactly when the line is something, the pattern, and something |
| GrepSpec.LinesMakeTheText | syscalls/ece391grep.c:29-33 | the lines hold no newline and, each with one behind it, make up the text, of which only the last may lack its own |
| GrepSpec.ReportOfLine | syscalls/ece391grep.c:45-48 | the report of one line is the name, a colon, the line and a newline if the pattern occurs in it, and nothing otherwise |
| Grep.ShiftDown | syscalls/ece391grep.c:33-38 | the unfinished line moves to the front of the buffer; a byte is seen as another one only behind a NUL of that line, and newlines stay newlines |
| Grep.Refill | syscalls/ece391grep.c:22-27 | the buffer is topped up with the next stretch of the file, nothing else in it changes, and it stays short only at the file's end |
| Grep.ScanBuffer | syscalls/ece391grep.c:28-57 | one pass over the buffer, whatever it holds, reports exactly its finished pieces and keeps the unfinished one, however lines fall across refills; a newline behind the buffer is gone after a full block that does not end in one |
| Grep.DoOneFile | syscalls/ece391grep.c:9-66 | for any bytes in the file and in the uninitialised buffer: stops at the end of the file, having printed the report of all its pieces as they are seen, torn exactly if the byte behind the buffer was a newline; the descriptor table is as before; failed opens print one message |
| Grep.TextOnDisk | syscalls/ece391grep.c:16-27 | the text that is searched is, for a type 2 entry, the bytes of its own inode on a disk of known parts |
| GrepSpec.FittingPiecesAreLines | syscalls/ece391grep.c:29-57 | for lines of at most 1024 bytes the pieces' report is the report of the file's lines |
| GrepSpec.StreamingIsExactIffLinesFit | syscalls/ece391grep.c:20-60 | the streaming search agrees with the search line by line for every pattern, and equally for every pattern of one byte, exactly when no line is longer than the buffer |
| GrepSpec.ArgumentsSeeIffFitOrBlank | syscalls/ece391grep.c:20-60 | for the patterns of 1 to 31 bytes without a space they agree exactly when every longer line is all spaces |
| GrepSpec.OneByteTells | syscalls/ece391grep.c:29-57 | a file with a longer line has a one-byte pattern on which the two differ |
| GrepBuffer.TearIsHarmlessIff | syscalls/ece391grep.c:29-57 | a newline in the byte behind the buffer changes the output for no pattern exactly when no line that began in the block before the tear runs over it |
| GrepBuffer.OneLetterIsTornOff | syscalls/ece391grep.c:29-57 | a newline and 1024 letters: one report line without that byte, two with it |
| GrepBuffer.StretchOfText | syscalls/ece391grep.c:20-60 | for a file without NUL what is printed is the report of its pieces, and torn only if a newline stood behind the buffer and tears a line |
| GrepBuffer.StretchIsFair | syscalls/ece391grep.c:20-60 | for any file what is printed are beginnings of its own pieces in order; no occurrence before a piece's first NUL is missed, and pieces without NUL are printed exactly when they contain the pattern |
| Grep.Run | syscalls/ece391grep.c:68-97 | for any directory whose visible names lead to files, executables too: one part for each entry, in directory order, nothing for names with a dot, or the error the source names; every descriptor but the directory's is as before |
| Grep.PlainPartsAreReport | syscalls/ece391grep.c:84-94 | if no visible file holds a NUL or is torn, the parts together are the report of all pieces of all files |
| Grep.NextName | student-distrib/filesystem.c:125-133 | the directory loop gets each entry's name once, in order, then 0 |
| Grep.ListReportIsLineReport | syscalls/ece391grep.c:84-94 | with distinct names and visible files whose lines fit, that report is, file by file, the matching lines |
| GrepScreen.RunOnScreen | syscalls/ece391grep.c:68-97 | outside a read the screen, which showed the last rows of a log, shows afterwards the last rows of the log and the program's output, wrapped |
| Memory.Memcpy | student-distrib/lib.c:557-597 | the aligned head, the doublewords and the tail together compute FastCopy |
| Memory.FastCopyKeepsOutside | student-distrib/lib.c:557-597 | FastCopy changes no byte below or above the destination region |
| Memory.MoveDwords | student-distrib/lib.c:572-579 | each doubleword is read whole before it is written |
| Memory.FastIsByteCopy | student-distrib/lib.c:557-597 | the fast form equals the byte-by-byte form unless the regions collide |
| Memory.OverlappingByteCopyRepeats | student-distrib/lib.c:557-597 | what a byte copy to a higher overlapping place gives: the first dest - src bytes repeated |
| Memory.CollisionsDiffer | student-distrib/lib.c:557-597 | when they collide there are contents on which the two forms differ |
| Memory.FastIsByteCopyIff | student-distrib/lib.c:557-597 | the two forms agree on all contents exactly when dest is not 1..3 above src or no doubleword is moved |
| Memory.ByteCopyIsAtOnce | student-distrib/lib.c:557-597 | a byte copy is a simultaneous copy when dest is not above src or the regions are disjoint |
| Memory.MemcpyMovesAll | student-distrib/lib.c:557-597 | so is memcpy |
| Memory.Memset | student-distrib/lib.c:456-493 | exactly the n bytes become the low byte of c |
| Memory.Memmove | student-distrib/lib.c:609-630 | a simultaneous copy for every overlap |
| Console.Display.Clear | student-distrib/lib.c:63-71 | all 2000 cells become blanks with the attribute, the cursor and the rest of memory stay |
| Console.Display.Scroll | student-distrib/lib.c:237-251 | rows 1..24 move up, the last row becomes blank, only the video page is written |
| Console.Display.PutC | student-distrib/lib.c:229-308 | the whole new screen state for a byte: break, backspace by redrawing a blank, dropped byte on a full line, drawn byte |
| Console.Display.PutAll | student-distrib/lib.c:209-219 | puts and terminal_write: the bytes one after another |
| ScreenLog.WrapThenText | student-distrib/lib.c:276-302 | reading the wrapped rows back gives the text that was wrapped |
| ScreenLog.TextThenWrap | student-distrib/lib.c:276-302 | wrapping what is read back gives the rows, up to an empty row after a full one |
| ScreenLog.PutShows | student-distrib/lib.c:229-302 | one byte keeps the frame a window on the last 25 rows of the wrapped text, through wrap and scroll |
| ScreenLog.AllKeptOutsideRead | student-distrib/lib.c:276-302 | outside a read nothing is dropped exactly when tbuf is not 128 or the text holds only line breaks |
| ScreenLog.BackspaceOutsideRead | student-distrib/lib.c:255-274 | outside a read a backspace blanks the cell before the cursor and steps back, and leaves the line buffer; with an empty buffer it does nothing |
| ScreenLog.OutputExtendsLog | student-distrib/lib.c:229-302 | backspace-free output, during a read or not, shows the log extended by the bytes that are kept |
| ScreenLog.ScreenShowsLog | student-distrib/lib.c:50-302 | from a cleared screen any backspace-free output leaves exactly the last rows of the wrapped text, with the cursor on the screen |
| LineEditor.KeysEdit | student-distrib/lib.c:255-302 | after any keys the line buffer holds the edited line: append below 128, backspace drops the last byte, two when full |
| LineEditor.PlainKeys | student-distrib/lib.c:253-306 | without backspaces the line is what is typed, cut at 128 bytes |
| LineEditor.BackspaceUndoes | student-distrib/lib.c:256-271 | a byte and a backspace leave the line as it was; from 127 bytes on one byte more is lost |
| LineEditor.TypeEchoes | student-distrib/lib.c:276-302 | a typed byte appears behind the line on the screen, through wraps and scrolls |
| LineEditor.BackspaceEchoes | student-distrib/lib.c:255-275 | a backspace blanks the line's last cell even across the left edge |
| LineEditor.KeysEcho | student-distrib/lib.c:255-302 | from a start column up to 32, for every key sequence, the cells from the start hold exactly the line buffer and the cursor stands behind it |
| LineEditor.TailIsBlankIff | student-distrib/lib.c:255-276 | a key leaves visible bytes behind the cursor exactly when it is a backspace on a full line whose last two bytes are not both spaces |
| LineEditor.TailStaysBlankIff | student-distrib/lib.c:255-276 | over any keys, nothing but the line is ever left on the screen exactly when no key does that |
| LineEditor.FullBackspaceLeavesTwo | student-distrib/lib.c:276 | 128 letters and a backspace: 126 in the buffer, two more on the screen under and right of the cursor |
| LineEditor.LateStartFails | student-distrib/lib.c:255-275 | from any later column there are keys after which the cursor is wrong |
| LineEditor.CursorWorksIffEarlyStart | student-distrib/lib.c:255-302 | the cursor agrees with the line buffer after every key sequence exactly when the read starts in column 0..32 |
| LineEditor.ReadKeys | student-distrib/terminal.c:17-21 | the wait ends at the first line break, with the edited line in the buffer |
| LineEditor.TerminalRead | student-distrib/terminal.c:14-47 | the caller's buffer gets the typed line and a newline, or its first n bytes and a newline, NULs up to byte 129, and stays as it was behind that; the answer is the count; a full line loses its last byte |
| Paging.Tables.FillTable | student-distrib/paging.c:44-55 | every entry holds its own address without the present bit, except the first table's video entry |
| Paging.Tables.SetupPagingDirectoryTable | student-distrib/paging.c:62-64 | one entry of the video table changes, nothing else |
| Terminals.TerminalsAreIndependentIff | student-distrib/lib.c:229-308 | a terminal is at every point of a run what its own events alone make of it exactly when no byte that counts for it finds the shared flag other than its own |
| Terminals.TerminalsAreIndependent | student-distrib/scheduling.c:50-277 | then it is, after any interleaving with the others, what its own acts alone make of it |
| Terminals.QuietIsUndisturbed | student-distrib/terminal.c:17-19 | it is enough that no other terminal begins a read or has a line break between its own last one and its next byte |
| Terminals.BreakElsewhereLosesLetter | student-distrib/lib.c:238 | terminal 1 reads, a newline on terminal 2, a letter on terminal 1: alone the line has one letter, in the run none |
| Terminals.FirstVisitIsRecorded | student-distrib/scheduling.c:97-117 | a byte printed on a first visit while another terminal reads goes into the line |
| Terminals.ReadCollects | student-distrib/terminal.c:17-19 | a begun read and any keys but a break: whatever the line held before, it then holds what the keys make of an empty one; no other terminal changes |
| Terminals.EndReadMeans | student-distrib/terminal.c:28-33 | the newline stands behind the line, at byte 128 for a full one, which then counts 127; everything else stays |
| Terminals.ResetMeans | student-distrib/lib.c:50-72 | every cell blank and plain, the cursor in the corner; line, flag and the other terminals stay |
| Terminals.SwitchMeans | student-distrib/scheduling.c:63-152 | every started terminal and the flag stay; a first visit finds blank cells, the cursor in the corner and an empty line |
| Terminals.StoreMeans | student-distrib/scheduling.c:158-199 | a program's store changes one byte of one terminal's frame |
| Terminals.System.OnlyVisiblePageIsVideo | student-distrib/scheduling.c:158-199 | at rest a terminal's virtual page translates to the video frame exactly when it is the visible one, else to its own frame |
| Terminals.System.CopyFromVideo | student-distrib/scheduling.c:183-199 | the visible frame is saved in its terminal's own page, the other two stay |
| Terminals.System.CopyToVideo | student-distrib/scheduling.c:158-175 | the terminal's own page is shown and its entry points at video again |
| Terminals.System.PutAway | student-distrib/scheduling.c:183-277 | after the first half of a switch every terminal, the visible one included, is found in its own frame, record and 129-byte buffer as it was |
| Terminals.System.SetCursorAndBuffer | student-distrib/scheduling.c:207-234 | cursor, count and all 129 buffer bytes come back from the terminal's record |
| Terminals.System.TakeOut | student-distrib/scheduling.c:158-234 | the second half shows the chosen terminal's stored frame, cursor and line, or a fresh one, and leaves all stored terminals as they are |
| Terminals.System.ScreenTo | student-distrib/scheduling.c:63-152 | screen1, screen2 and screen3: the chosen terminal is shown, fresh on its first visit, and no terminal changes |
| Terminals.System.InitScreenMemory | student-distrib/scheduling.c:50-55 | one started terminal, cleared and visible; the flag stays |
| Terminals.System.SwitchTo | student-distrib/scheduling.c:63-152 | the switch is the specification's switch on the three terminals; the shared flag stays |
| Terminals.System.Print | student-distrib/lib.c:229-308 | a console byte changes the visible terminal only, and the shared flag exactly at a line break |
| Terminals.System.BeginReading | student-distrib/terminal.c:17-18 | the visible terminal's line becomes empty and the shared flag goes up, whoever else is reading |
| Terminals.System.EndReading | student-distrib/terminal.c:28-33 | the visible terminal's line gets its newline, and a full one is cut to 127 bytes |
| Terminals.System.StoreThrough | student-distrib/scheduling.c:158-199 | a store through a terminal's vidmap page lands in that terminal's frame, visible or not |
| Terminals.System.Vidmap | student-distrib/syscall.c:447-455 | 0 exactly for pointers in the checked range, else -1; the page handed out translates to video, byte by byte |
| Terminals.System.Serve | student-distrib/scheduling.c:50-277 | any sequence of switches, output, begun and ended reads, clears and stores on the shared frame and the shared flag refines the three terminals |
| BlinkSpec.BlinkIsPeriodic | fish/blink.S:60-90 | after t calls a node is at phase t modulo its period, in closed form |
| BlinkSpec.OnExactlyInTheFirstPart | fish/blink.S:60-90 | for lengths in 1..32767 status is 1 exactly when t mod (on + off) < on, with the matching countdown |
| BlinkSpec.LengthsCountIff | fish/blink.S:64-86 | status is 1 exactly when t mod (on + off) < on, for every t, if and only if both lengths are in 1..32768 |
| BlinkSpec.UntouchedOnlyTicks | fish/blink.S:49-99 | whatever happens to other locations, a location's node only ticks |
| BlinkSpec.ShowsAloneRun | fish/blink.S:49-99 | the only node at a location keeps its character on the screen through any such run |
| BlinkSpec.BlinksFromItsAdd | fish/blink.S:105-184 | from its add on, a node alone at its location has the phase, and the screen its character, that the number of calls gives |
| BlinkSpec.SyncPutsInStep | fish/blink.S:240-300 | a successful sync of two nodes makes lengths, countdown and status equal |
| BlinkSpec.SyncedStayInStep | fish/blink.S:240-300 | they stay equal after every later call until one of them is removed or synced again |
| BlinkSpec.SyncShowsIff | fish/blink.S:277-285 | right after a sync the target's cell shows its matching character exactly when the source is off or its two characters are the same |
| BlinkSpec.ToggleShows | fish/blink.S:64-86 | a call on which a node alone at its location toggles makes its cell right, whatever it held |
| BlinkSpec.SyncShowsAfterCountdownIff | fish/blink.S:240-300 | after a sync and any run that leaves the target alone the cell is right exactly if the calls have used up the source's countdown or the sync was right already |
| BlinkSpec.SyncShowsTheWrongOne | fish/blink.S:281-282 | two characters that are on, and a sync after which the target is on and its off character is shown |
| BlinkSpec.RemoveMeans | fish/blink.S:187-237 | a removal takes out exactly the first node of the location, keeps the others in order and draws nothing; without such a node nothing changes |
| BlinkSpec.LoneIsGone | fish/blink.S:187-237 | a location that had one node has none afterwards; the other locations have what they had |
| BlinkSpec.RemoveUndoesAdd | fish/blink.S:105-237 | an add at a free location and a removal there give the old list back |
| BlinkEngine.Engine.Malloc | fish/fish.c:161-171 | the first slot with location 0, or null exactly when there is none |
| BlinkEngine.Engine.FreePlusListed | fish/fish.c:161-176 | free slots and listed nodes are always 2000 together, so a slot is free exactly while fewer are listed |
| BlinkEngine.Engine.FindHelper | fish/blink.S:351-379 | the pointer walk ends at the first node of the location, or at null |
| BlinkEngine.Engine.RtcTasklet | fish/blink.S:49-99 | one call ticks every node once and draws exactly the toggled ones, in list order |
| BlinkEngine.Engine.AddNode | fish/blink.S:105-184 | in any state of the pool: the first slot with location 0 is filled, linked in front and shown; -1 without a change exactly for a location out of range or when there is no such slot |
| BlinkEngine.Engine.IoctlAdd | fish/blink.S:105-184 | on a valid list the list stays valid exactly for a location other than 0 or on a full pool, and is then the old one with the begun node in front |
| BlinkEngine.Engine.Predecessor | fish/blink.S:203-217 | the walk for the predecessor ends at it |
| BlinkEngine.Engine.IoctlRemove | fish/blink.S:187-237 | 0 exactly when some node has the location: then the first of them is out of the list, its slot has location 0, and the others keep their order and values; else -1 and the list stays |
| BlinkEngine.Engine.IoctlSync | fish/blink.S:240-300 | 0 exactly when both locations have a node; the first of the target takes over the timing of the first of the source, and its off character is drawn |
| BlinkEngine.Engine.IoctlFind | fish/blink.S:302-349 | 0 exactly when some node has the location, and then the first of them is copied out; nothing changes |
| BlinkEngine.Engine.Serve | fish/blink.S:49-379 | any run of commands with locations other than 0 keeps the list acyclic, its nodes distinct and exactly the taken slots, and refines the sequence |
| BlinkEngine.ZeroLocationMakesCycle | fish/fish.c:165 | an add at location 0 and any second add that is in range leave a node that is its own successor |
| Fish.SpotsAreTheDrawn | fish/fish.c:99-131 | the spots are exactly the places where one of the two rows has a character that is not a space |
| Fish.SpotsAreInOrder | fish/fish.c:99-131 | in row-major order, none twice |
| Fish.RowsStackBack | fish/fish.c:99-131 | the rows of a picture file hold no newline and, with one between any two, make up the file |
| Fish.DrawnMeans | fish/fish.c:122-123 | a place is drawn exactly when one of the two files has a character there that is not a space |
| Fish.NextChar | fish/fish.c:103-117 | a row's next character, or a newline from its end on, also at the end of the file |
| Fish.DrawRow | fish/fish.c:100-131 | one row of both files issues the adds of that row's spots |
| Fish.BetweenRows | fish/fish.c:133-147 | a file that has ended is closed, the other stays open, and its next row follows |
| Fish.OpenBoth | fish/fish.c:92-97 | both files are open, unread, exactly when both names exist and two of the descriptors 2..7 are free |
| Fish.AddFrames | fish/fish.c:80-149 | halts exactly when the two files cannot both be opened, and then draws nothing; otherwise the loop ends, both files are closed, and the blink list is what the adds of all spots of the two padded pictures leave |
| Animation.FramesTakeTurns | fish/fish.c:23-149 | for a picture that fits the screen, after the adds and any commands that leave a drawn spot alone, its cell shows the first frame's character when the number of calls modulo 30 is below 15 and the second frame's otherwise |
| Animation.SyncTakesOver | fish/fish.c:46-72 | at the end of main its own character blinks in step with the spot at location 40, if that is drawn, and has the frames' lengths |
| Animation.Animate | fish/fish.c:23-77 | main: after its first wait every drawn spot shows the frame that the number of calls gives, and so does at the end every spot but the two locations that main itself adds to and removes |
| Processes.StepIsSound | student-distrib/syscall.c:27-132 | pids of live processes stay distinct, the root's first, the others from 3 up |
| Processes.LowerProcessesRest | student-distrib/syscall.c:27-132 | whatever the processes above a depth execute, load and store, what is recorded below it stays, and so does every byte of those processes' pages |
| Processes.HaltReturnsToParent | student-distrib/syscall.c:80-132 | after any run of its own, a child's halt gives back the same stack, the parent's table as recorded, every byte of the pages of all processes below, and resumes the execute that started it |
| Processes.ExecMeans | student-distrib/syscall.c:215-294 | the program stands 0x48000 bytes into its own page, all other bytes of all pages stay, and the process is on the stack with the terminal's two descriptors and its parent's others |
| Processes.RootHaltMeans | student-distrib/syscall.c:80-86 | a root that halts is the shell, loaded anew in the same page |
| Processes.ExecutableOnDisk | student-distrib/syscall.c:172-179 | a name can be executed exactly when the file of its first entry's inode begins with 0x7F and ELF; that file is the program |
| Processes.SlotIsLowest | student-distrib/syscall.c:486-517 | the slot is the terminal's own, or the lowest free of 3, 4 and 5; there is none exactly when those four are taken |
| Processes.DescriptorsSurviveIff | student-distrib/syscall.c:97 | after any run of a child the parent's open descriptors are what it left exactly when they equal the table it was created with |
| Processes.OpenedFileIsLost | student-distrib/syscall.c:88-101 | a program that opens a file and executes a child finds the file closed after the child's halt, whatever the child did |
| Processes.AtMostFour | student-distrib/syscall.c:486-517 | at most four processes on a terminal, and no slot exactly at four |
| Processes.ParentPathIsTheStack | student-distrib/syscall.c:331-409 | following parent links n times from a process leads to the process n below it, never back to itself |
| Processes.Kernel.LoadFile | student-distrib/syscall.c:242-246 | the program goes through the page tables into the new pid's page; every other page keeps its bytes, and it faults exactly when it is too long |
| Processes.Kernel.StoreTo | student-distrib/syscall.c:217-233 | a store of the running program, through the page tables, changes one byte of its own page |
| Processes.Kernel.SeesOwnPage | student-distrib/syscall.c:217-233 | the address 0x8000000 + off is translated to 0x800000 + 0x400000 * pid + off, so what the running program sees is its own page |
| Processes.Kernel.CheckFile | student-distrib/syscall.c:172-179 | 0 exactly for a name that leads to a file starting with the four magic bytes |
| Processes.Kernel.SetPnum | student-distrib/syscall.c:486-517 | the terminal's own slot first, then the lowest of 3..5, -1 exactly when none is free |
| Processes.Kernel.Execute | student-distrib/syscall.c:27-42 | pushes the process with its page mapped and its parent linked; -1 for no executable and 0 for no slot, changing nothing but filename and arg; faults exactly when the program is longer than the 0x3B8000 bytes that its page has left, having touched no other page |
| Processes.Kernel.Return | student-distrib/syscall.c:88-101 | the parent's pid, page, filename and recorded descriptors are current again |
| Processes.Kernel.Halt | student-distrib/syscall.c:80-132 | pops to the parent with value 0 whatever the status, or starts the root's shell anew as its own parent |
| Processes.Kernel.Serve | student-distrib/syscall.c:27-132 | any run of executes, halts, descriptor calls and stores keeps control blocks, slots, links, the mapped page and physical memory in agreement with the stack and its pages |
| Numbers.NumeralReadsBack | student-distrib/lib.c:334-367 | the numeral of a value has only digits, no leading zero, and the value |
| Numbers.ValueWritesBack | student-distrib/lib.c:334-367 | every numeral without leading zero is the one written for its value |
| Numbers.NumeralLength | student-distrib/lib.c:334-367 | at most n digits exactly below radix to the n, the room that buffers need |
| Numbers.Itoa | student-distrib/lib.c:334-367 | the buffer gets the numeral and its terminator, every other byte stays, for radix 2..36 |
| Numbers.Strrev | student-distrib/lib.c:376-392 | the string is reversed in place, its surroundings stay |
| Numbers.UserStrrev | syscalls/ece391support.c:84-104 | the user library's copy, which returns early for at most one byte, does the same |
| Numbers.UserItoa | syscalls/ece391support.c:49-81 | so does its itoa: the same numeral and terminator for every value and radix |
| Numbers.PlainCase | student-distrib/lib.c:126-155 | %u and %x print a canonical numeral of the value |
| Numbers.SignedCase | student-distrib/lib.c:158-171 | %d prints a canonical signed numeral of the argument |
| Numbers.AlternateHexCase | student-distrib/lib.c:126-143 | %#x prints exactly eight hex digits that denote the argument |
| Commands.ParseArg | student-distrib/syscall.c:140-160 | filename and arg byte by byte: the first word, and the last window the scan meets, although the index starts over at each space |
| Commands.CommandIsParsed | student-distrib/syscall.c:140-160 | without a stale space the strings are the first word and the text after the last space, empty if there is none; with one the window starts behind the terminator |
| Commands.ArgumentEndsCommand | student-distrib/syscall.c:140-160 | a command is its first word, or that, a space, anything up to a further space, and its argument; neither holds a space |
| Commands.WindowOfCommand | student-distrib/syscall.c:144-159 | the scan ends in the command's own last window exactly when no space follows the terminator within that window |
| Commands.CleanCommandIsParsed | student-distrib/syscall.c:140-160 | words of at most 31 bytes and 31 NULs behind the terminator are enough for the scan to end and for both strings |
| Commands.ArgumentsOfCommands | student-distrib/syscall.c:140-160 | the nonempty arguments of commands with short words are exactly the strings of 1 to 31 bytes without NUL or space |
| Commands.StaleSpaceIsRead | student-distrib/syscall.c:151-154 | a command over a longer old one whose argument comes out of the old bytes |
| Commands.Getargs | student-distrib/syscall.c:418-437 | -1 exactly for sizes 0..32 or an empty argument, else the argument and its terminator are copied |
| Emulator.Execute | syscalls/ece391emulate.c:68-100 | the vector is the name behind ./ and the words of the rest, cut in place; -1 exactly above 1023 bytes; at most 513 entries |
| Emulator.CutArguments | syscalls/ece391emulate.c:86-98 | the loop ends and every word has its pointer and its terminator |
| Emulator.WordsAreWords | syscalls/ece391emulate.c:86-98 | words are not empty and hold no space, newline or NUL; at most half as many as bytes, rounded up |
| Emulator.SpacesOnlySeparate | syscalls/ece391emulate.c:86-98 | however many spaces stand around and between words, tokenizing gives those words |
| Emulator.VectorOfCommand | syscalls/ece391emulate.c:68-100 | for a name and any so spaced words the vector is ./ and the name, and the words |
| Emulator.Getargs | syscalls/ece391emulate.c:132-157 | 0 exactly when the words joined by single spaces and their terminator fit, and then the buffer holds them; the byte behind the room becomes NUL exactly when a prefix fills the room, and else stays |
| Emulator.FullRoomIsOverrun | syscalls/ece391emulate.c:139-145 | two bytes of room for a two-byte word: refused, and the third byte is overwritten |
| Emulator.JoinedWordsComeBack | syscalls/ece391emulate.c:68-157 | tokenizing the joined words gives the words |
| Emulator.ArgumentsSurviveJoining | syscalls/ece391emulate.c:68-157 | the arguments of any command survive joining and tokenizing again |
| Emulator.JoinGivesTextBackIff | syscalls/ece391emulate.c:68-157 | joining the words of a text gives the text exactly when it has no newline and no leading, trailing or doubled space |

## Left out

- Grep.DoOneFile: the branch for a failed read is not taken, because a read of an open regular file never answers -1 in this kernel; a clock entry is read as an empty file; directories are outside its precondition, since a read of one always stores 32 bytes, also behind the buffer's end. Which bytes are seen behind a NUL is not said.
- Grep.Run: the program's pattern is a parameter; where it comes from is Commands.Getargs. Visible entries that are directories are outside its precondition.
- Descriptors.Files.Close: `close(8)`, which the range check lets through and which would touch memory behind the table, is outside its precondition.
- Descriptors.Files.Read: reading the keyboard through descriptor 0 is LineEditor.TerminalRead; `rtc_read` is taken to return 0 at once.
- Console.Display.PutC: a cursor whose store would fall outside the frame is outside its precondition; LineEditor and ScreenLog show for which starts that never happens.
- Console.Display.PutAll: the same, for every byte of the run.
- LineEditor.TerminalRead: a negative size, with which the source stores before the buffer, is outside its precondition.
- Fish.AddFrames: pictures with a drawn place whose location is 0 modulo 65536 are outside its precondition, since such an add breaks the list (BlinkEngine.Engine.IoctlAdd).
- BlinkEngine.Engine.Serve: runs with an add at location 0 are outside its precondition, also where the pool is full and the add would be refused.
- Animation.Animate: the clock's descriptor and its rate; a picture wider than 80 columns or with a location of 2000 and more is outside its precondition.
- Terminals.System.BeginReading: a read begins on the visible terminal, as in the source, which does not ask to which terminal the reading program belongs; what the read then hands over is LineEditor.TerminalRead.
- Terminals.System.ScreenTo: models screen1, screen2 and screen3 once, with the terminal's number as a parameter; the shell that a first visit executes belongs to Processes, and cursor ports are not modelled.
- Terminals.System.StoreThrough: stores into the 96 bytes behind a frame's 4000 are left out, since those bytes are not saved.
- Processes.Kernel.CheckFile: a name whose entry leads to an ill-formed inode is outside its precondition.
- Processes.Kernel.LoadFile: what page_fault's halt does after a load that faults.
- Processes.Kernel.Serve: runs that execute a program longer than its page's room, or halt the root while the shell is, are outside its precondition; Processes.Kernel.Execute says exactly when that is.
- Processes.Kernel.Execute: takes the two strings that Commands.ParseArg produces; execute and halt with a visible terminal other than the running one are left out.
- Processes.Kernel.Halt: stack switching is a token that is saved and restored; control block pointers are pids.
- Numbers.SignedCase: negation of the smallest value is taken to wrap around as the machine's does.
- Commands.ParseArg: words above 31 bytes, which overrun `filename` or `arg`, are outside its precondition.
- Emulator.Execute: fork, exec and wait; the vector is what they are given.
- The process ring and `pSwitch`: never reached, as the scheduler call is commented out.
- Port I/O, interrupt controllers, boot, descriptor tables and exception stubs: effects with little logic.
- Keyboard scancodes, `memset_word`, `memset_dword`, and the user programs other than grep and fish: finite tables and easy loops.
- The name that `read_dentry_by_name` copies aside before comparing: never read again.
