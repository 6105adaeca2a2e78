# A verified model of a small teaching kernel and its user programs

The repository is an x86 teaching kernel (`student-distrib/`), its user programs (`syscalls/`)
and a blink-animation demonstration (`fish/`). This project models the parts of it that hold
state or move bytes around, and proves what they do over all inputs and whole runs. Every
imperative routine is a method over arrays and fields, proved against a specification function;
the theorems are about those functions.

| part | files |
|---|---|
| bytes, words, byte buffers, C strings | `Machine.dfy`, `Buffers.dfy` |
| blink driver: intrusive list in a fixed pool, timing, screen | `BlinkSpec.dfy`, `Blink.dfy`, `BlinkTheorems.dfy` |
| lockstep merge of two text files, and the animation it produces | `Frames.dfy`, `Fish.dfy` |
| block file reader, program staging, sequential reads, cat | `FileSystem.dfy`, `Streams.dfy` |
| grep's chunk-and-carry loop | `GrepSpec.dfy`, `Grep.dfy` |
| terminal output and scrolling, terminal switching | `ConsoleSpec.dfy`, `Console.dfy`, `Terminals.dfy` |
| process table: execute, halt, terminal keys | `Tasks.dfy`, `Kernel.dfy` |
| the two argument parsers | `ArgsSpec.dfy`, `Args.dfy` |
| number printing, memory routines | `Numbers.dfy`, `Memory.dfy` |

Machine widths are written out: 16-bit countdowns compared as signed words, 8-bit string
lengths, 32-bit sums that wrap. Files, disks and memories are parameters; page directories are
named by the pid that owns them; whether a command loads is a parameter of `execute`.

## Where the code does less than its comments say

Each of these is proved as an exact condition, in both directions.

- `read_data` returns the flat-file slice for every disk exactly when the read ends before the
  end of the second block it touches, or starts on a block boundary and covers whole blocks
  (`FileSystem.AlwaysExactIff`). Every read of at most 4096 bytes is inside that region; every
  byte of any other read is given by `FileSystem.CopiedStrides`.
- grep prints the matching lines for every pattern exactly when no line is longer than 1024
  bytes (`GrepSpec.GrepCorrectIff`); of longer lines it searches and prints runs of 1024 bytes
  (`GrepSpec.PiecesAreChunks`).
- A blink period has its programmed length exactly for lengths 1 to 0x8000
  (`BlinkTheorems.DocumentedLawIff`); the pool stays a list exactly when location 0 is not added
  (`Blink.AddKeepsListIff`); the screen keeps agreeing with the list exactly under the operations
  named by `BlinkTheorems.Harmless`, because sync always draws the off character.
- The process table stays sound exactly under the calls named by `Tasks.Benign`: a failed load
  leaves a pid taken, halting the second or third shell loses a count, halting the first while
  nothing else is counted leaves its restart flag up, and the key of the terminal on display
  leaves its key flag up (`Tasks.StepSoundIff`). What each of these calls does leave is stated
  field by field (`Tasks.FailedLoadLaw`, `Tasks.ShellHaltLaw`, `Tasks.SameTerminalLaw`,
  `Tasks.FirstSwitchLaw`): halting the second or third shell while only the first is counted
  starts pid 1 again and leaves the halted pid's entry empty.
- Program staging leaves the saved screens alone exactly for images of at most 0x3000 bytes
  (`Terminals.StagingSafeIff`). Switching does not save the line buffer's fill count: the one
  shared count serves three terminals all through a run exactly when no switch goes between two
  open terminals that are filled differently far (`Terminals.RunInStepIff`); `Terminals.CountLost`
  is a run in which the next key lands at the wrong place.
- `add_frames` gets to the end of a row exactly on files that `read_data` accepts or that have
  ended (`Frames.RowEndsIff`). Closing its first file takes the operations of its second, so it
  faults exactly when the second file has more lines than the first (`Frames.AddFrames`).
- The emulated `getargs` stores a NUL behind its buffer exactly when some first arguments join to
  exactly the buffer's size (`Args.EmulatedGetArgs`; `Args.OverrunExample` is one). The kernel's
  keeps the bytes behind the caller's count exactly when those up to 1024 were zero
  (`Args.FetchKeepsRestIff`). The command field read as a string is the parsed command exactly
  under `Args.CommandKept`, which holds for every command below 40 bytes
  (`Args.CommandStoredIff`), and the program gets the argument that was parsed exactly when that has at
  most 40 bytes or its byte 40 equals its length (`Args.DeliveredIff`).
- The two parsers agree exactly on commands with at most one argument word
  (`ArgsSpec.LayersAgreeIff`). When a command starts with a space the kernel skips as many bytes
  as the whole text has spaces: it reads it like the command without them exactly when it has no
  other space (`ArgsSpec.LeadingSpacesIff`), and of " a b" it takes "b" for the command
  (`ArgsSpec.LeadingSpaceMisread`).
- `memcpy` is right for every content exactly when the regions are apart, the copy goes down, or
  it is a single aligned word (`Memory.CopiesRightIff`).

## Model

| member | source | states |
|---|---|---|
| `Blink.Driver.constructor` | fish/fish.c:21-28 | a cleared pool is the empty list |
| `Blink.Driver.Malloc` | fish/fish.c:161-171 | returns the first slot whose location is 0, or NULL when there is none |
| `Blink.FullIffNoFreeSlot` | fish/fish.c:161-171 | the list never exceeds 2000 entries and the allocator fails exactly when it has all of them |
| `Blink.LinkedMeans` | fish/blink.S:159-162 | the links visit no slot twice, and a slot is on the list exactly when its location is not 0 |
| `Blink.AddKeepsListIff` | fish/fish.c:164-167 | after an insertion the pool is still a list, for some path, exactly when the location is not 0 |
| `Blink.SecondAddAtZeroLoops` | fish/blink.S:140-162 | a second insertion at location 0 takes the same slot and links it to itself |
| `Blink.Driver.FindHelper` | fish/blink.S:351-379 | finds the newest entry whose location equals the low 16 bits of the argument, or NULL |
| `Blink.Driver.Add` | fish/blink.S:105-184 | fails exactly for locations past the screen or a full pool; otherwise prepends the entry, lit, and draws it; states the raw pool also for location 0 |
| `Blink.Driver.FindPrev` | fish/blink.S:206-212 | the second walk stops at the link that points at the found element |
| `Blink.Driver.Remove` | fish/blink.S:187-237 | deletes exactly the newest entry at the location in the low half of the argument, keeps the order of all others and frees its slot; fails exactly when there is none |
| `Blink.UnlinkAt` | fish/blink.S:214-223 | unlinking one slot leaves a list of the other entries in the same order |
| `Blink.Driver.Find` | fish/blink.S:302-349 | returns the newest entry at the location or fails |
| `Blink.Driver.Sync` | fish/blink.S:240-300 | source location in the high half of the argument, target in the low half: copies lengths, countdown and status to the target and always draws its off character; fails exactly when either has no entry |
| `Blink.Driver.Visit` | fish/blink.S:64-86 | one entry's tick: 16-bit decrement, signed comparison, toggle and redraw |
| `Blink.Driver.Tasklet` | fish/blink.S:49-99 | one pass ages every entry once and leaves links and order alone |
| `Blink.Driver.Perform` | fish/blink.S:101-103 | each entry point acts on the abstract world as its specification |
| `Blink.Driver.Drive` | fish/blink.S:49-237 | over every run of entry points and ticks the pool stays a list and equals the abstract run |
| `BlinkTheorems.TickPhase` | fish/blink.S:64-86 | one tick moves an entry to the next phase of its period and wraps at the end |
| `BlinkTheorems.Schedule` | fish/blink.S:64-86 | closed form of status and countdown n ticks after an add, for all 16-bit lengths |
| `BlinkTheorems.DocumentedLawIff` | fish/blink.S:64-66 | lit exactly when n mod (on+off) is below on, at every tick, if and only if both lengths are 1 to 0x8000 |
| `BlinkTheorems.TickLaw` | fish/blink.S:64-86 | one tick field by field: 16-bit decrement, kept while a positive signed word, else the status bit flips and the other length is loaded |
| `BlinkTheorems.AddLaw` | fish/blink.S:134-172 | field by field: the entry is in front, lit, with its on length as countdown, the others behind it; one screen byte changes |
| `BlinkTheorems.RemoveLaw` | fish/blink.S:195-223 | for every upper half of the argument, the newest entry at its lower half is cut out and nothing else changes |
| `BlinkTheorems.SyncLaw` | fish/blink.S:249-287 | for all 16-bit from and to, the newest entry at to gets the four timing fields of the newest entry at from, keeps location and characters, and its off character is drawn |
| `BlinkTheorems.SyncFails` | fish/blink.S:249-265 | without an entry at either location nothing changes |
| `BlinkTheorems.FindIsTop` | fish/blink.S:357-367 | the entry found at a location is the top of that location's stack |
| `BlinkTheorems.StepRefines` | fish/blink.S:105-300 | every operation refines a multimap of stacks: push, pop and re-expose, retime one top, age all |
| `BlinkTheorems.RunRefines` | fish/blink.S:49-300 | every run refines the multimap's run |
| `BlinkTheorems.AddedEntryBlinks` | fish/blink.S:135-162 | after an add and any run that leaves its cell alone, find gives that entry, lit exactly in the first part of each period |
| `BlinkTheorems.SyncedStayInStep` | fish/blink.S:267-275 | after a sync the two entries have equal timing for ever, until one is touched |
| `BlinkTheorems.AttributesKept` | fish/blink.S:43-47 | no run changes an attribute byte |
| `BlinkTheorems.StepShownIff` | fish/blink.S:277-285 | an operation keeps list and screen in agreement exactly when it is harmless |
| `BlinkTheorems.ScreenAgrees` | fish/blink.S:68-86 | over every harmless run each live cell shows the on character exactly when its entry is lit |
| `Frames.NextByte` | fish/fish.c:103-117 | the guarded one-byte read, on any descriptor: next byte, newline at the end, a NUL on a refused read, a fault through missing operations |
| `Frames.SplitMeans` | fish/fish.c:104-107 | the rows of a file hold no newline and joined by newlines are the file |
| `Frames.PassServes` | fish/fish.c:103-109 | a pass over a file that can be read takes its next byte, or a newline and the end |
| `Frames.PassRefused` | fish/fish.c:103-109 | a pass over a refused file takes a NUL and stays where it is |
| `Frames.RowEndsIff` | fish/fish.c:101-132 | some number of passes yields a newline if and only if the inode is readable or the position is at the end; a refused file never yields one |
| `Frames.AddRow` | fish/fish.c:100-132 | the inner loop terminates on files that can be read and issues the requests of one row of the padded pair, or faults at once if the second file lost its operations |
| `Frames.AddFrames` | fish/fish.c:79-149 | over the descriptor table: terminates with exactly the requests of the first file's rows, and faults if and only if the second file has more lines than the first |
| `Frames.RequestedIff` | fish/fish.c:119-129 | a request is issued exactly for the cells where either file has a character other than a space, with both characters, a space for a missing one, and location row*80+col+40 |
| `Frames.RequestsInOrder` | fish/fish.c:99-132 | requests come in reading order, one for each visible cell |
| `Fish.RequestsOrdered` | fish/fish.c:126 | for pictures that fit, requests come in strictly increasing location order |
| `Fish.RequestsAnimate` | fish/fish.c:41-44 | requests on distinct cells, given to a free driver, alternate for every number of ticks |
| `Fish.PicturesAnimate` | fish/fish.c:36-44 | for two pictures whose rows fit the screen, every visible cell shows the first for 15 ticks and the second for 15, for ever |
| `FileSystem.OpenFiles.CopyBlocks` | student-distrib/filesystem.c:113-160 | the block loop terminates, writes only the requested bytes and leaves what the copy function says, for every offset and length |
| `FileSystem.OpenFiles.ReadData` | student-distrib/filesystem.c:75-164 | return value in plain terms, cleared and filled buffer and file position for every inode, offset and count whose sum is a 32-bit number, errors included |
| `FileSystem.FileByteIs` | student-distrib/filesystem.c:120-121 | byte p of a file is byte p mod 4096 of the data block whose number is in word p/4096 of the inode |
| `FileSystem.ExactReads` | student-distrib/filesystem.c:118-160 | inside the region the copied bytes are the flat-file slice |
| `FileSystem.UnalignedFails` | student-distrib/filesystem.c:146-152 | an unaligned read past the region returns wrong bytes on a marked disk |
| `FileSystem.RaggedFails` | student-distrib/filesystem.c:153-157 | an aligned read with a ragged end takes its tail from the block before it |
| `FileSystem.CopiedStrides` | student-distrib/filesystem.c:118-160 | every byte of a read outside the region: the rest of the first block, then as many bytes from the front of each next block, and behind the last full copy the front of that same block |
| `FileSystem.AlwaysExactIff` | student-distrib/filesystem.c:118-160 | a read is exact on every disk whose file covers it if and only if it is inside the region |
| `FileSystem.SmallReadExact` | student-distrib/filesystem.c:125-133 | a read of at most one block gives the next file bytes followed by zeros |
| `FileSystem.StagedExactIff` | student-distrib/filesystem.c:318-319 | staging is exact on every disk if and only if the length is below 8192 or a multiple of 4096 |
| `FileSystem.OpenFiles.StageProgram` | student-distrib/filesystem.c:303-322 | refuses files without the four magic bytes, else stages the read bytes and takes the entry point from bytes 24 to 27, lowest first; the file itself inside the region |
| `FileSystem.OpenFiles.Read` | student-distrib/filesystem.c:209-217 | a descriptor read at its position, which advances by the count returned |
| `FileSystem.OpenFiles.SysRead` | student-distrib/systemcalls.c:328-335 | refuses bad descriptors and negative counts, faults on a descriptor in use without operations, else reads |
| `FileSystem.OpenFiles.Close` | student-distrib/systemcalls.c:430-470 | frees the descriptor but takes the operations of the one opened last; closing twice changes nothing |
| `Streams.ReadPiece` | student-distrib/filesystem.c:209-217 | a small read returns the next part of the file |
| `Streams.ReadMany` | student-distrib/filesystem.c:209-217 | any sequence of sizes up to 4096 concatenates to a prefix, and the position is the total, capped at the end |
| `Streams.Cat` | syscalls/ece391cat.c:21-31 | terminates having written exactly the file; returns 3 on a failed read, or at the first failed write with what was written before |
| `Grep.LineEnd` | syscalls/ece391grep.c:30-32 | stops at the first newline or at the end of the bytes |
| `Grep.StrncmpIsZero` | syscalls/ece391support.c:35-46 | the bounded comparison is zero exactly when the pattern stands there, never past the line's NUL |
| `Grep.SearchLine` | syscalls/ece391grep.c:41-51 | reports a hit exactly when the line contains the nonempty pattern |
| `Grep.StrcpyDown` | syscalls/ece391support.c:14-17 | the overlapping downward copy moves the tail to the front and touches nothing beyond |
| `Grep.SearchStep` | syscalls/ece391grep.c:30-56 | searching one line accounts for exactly one piece of the remaining file |
| `Grep.ScanBuffer` | syscalls/ece391grep.c:28-57 | one pass over the buffer searches whole pieces, carries the unfinished line and leaves room to read |
| `Grep.ReadAndScan` | syscalls/ece391grep.c:21-57 | one read and scan accounts for whole pieces and keeps the unfinished line at the front, with room to read |
| `Grep.DoOneFile` | syscalls/ece391grep.c:20-60 | for every NUL-free file, terminates having printed name, colon and line for exactly the matching pieces in order; failed reads reported |
| `GrepSpec.LinesJoin` | syscalls/ece391grep.c:30-32 | the lines of a file joined by newlines, and one more if it ends in one, are the file |
| `GrepSpec.LinesNewlineFree` | syscalls/ece391grep.c:30-32 | no line holds a newline |
| `GrepSpec.HitMeans` | syscalls/ece391grep.c:42-44 | a line is hit if and only if it is something, the nonempty pattern and something more |
| `GrepSpec.MatchingSnoc` | syscalls/ece391grep.c:42-50 | a line more is reported if it is hit, behind the others |
| `GrepSpec.PrintedLines` | syscalls/ece391grep.c:45-48 | read line by line, the output is name, colon and line for each line found |
| `GrepSpec.PiecesAreChunks` | syscalls/ece391grep.c:33-39 | for every file, what is searched and printed are its lines cut into runs of 1024 bytes |
| `GrepSpec.ShortLinesAgree` | syscalls/ece391grep.c:33-39 | with no line over 1024 bytes the matching pieces are the matching lines |
| `GrepSpec.GrepCorrectIff` | syscalls/ece391grep.c:33-39 | that holds for every pattern if and only if no line is over 1024 bytes |
| `ConsoleSpec.TypeAllSplit` | student-distrib/terminal.c:227-285 | splitting a stream over calls does not change its history |
| `ConsoleSpec.TypeAllMeans` | student-distrib/terminal.c:267-278 | a text adds one line per line feed or carriage return and its other bytes but NUL, in order, behind what was there; finished lines stay |
| `ConsoleSpec.OverlayMeans` | student-distrib/lib.c:258-262 | a column shows the last byte written at a position congruent to it modulo 80, and a space if there is none |
| `Console.Screen.PutChar` | student-distrib/lib.c:251-264 | draws one cell and its attribute and moves the cursor in the row, or breaks the line |
| `Console.Screen.Clear` | student-distrib/lib.c:86-94 | blanks all cells and leaves the rest of the page alone |
| `Console.Screen.ClearAndHome` | student-distrib/terminal.c:374-375 | a cleared screen shows the empty history |
| `Console.Screen.SaveRows` | student-distrib/terminal.c:245-255 | the copy of the screen, with spaces for its last row |
| `Console.Screen.PutRow` | student-distrib/terminal.c:259-263 | writing a saved row through putc lands on the row above, cell by cell |
| `Console.Screen.Scroll` | student-distrib/terminal.c:242-266 | rows move up by one and row 23 becomes blank, given that no cell holds a line break |
| `Console.ShowsMeans` | student-distrib/terminal.c:242-281 | whenever a history is shown the cursor is on the screen, row 24 is blank and no cell holds a line break |
| `Console.ShowsLines` | student-distrib/terminal.c:242-281 | byte by byte: the cursor row shows the last line and the rows above those before, each column the last byte congruent to it, on attribute 7 |
| `Console.Screen.WriteByte` | student-distrib/terminal.c:240-280 | one byte extends the history that the screen shows |
| `Console.Screen.WriteHelper` | student-distrib/terminal.c:227-285 | after any stream the rows show the last lines of the whole history, each overlaid modulo 80 |
| `Terminals.Multiplexer.constructor` | student-distrib/terminal.c:42-56 | boot: one open terminal with an empty history |
| `Terminals.Multiplexer.SaveCurrent` | student-distrib/terminal.c:359-372 | saves page, cursor and line buffer in the current terminal's area and no other |
| `Terminals.Multiplexer.BringBack` | student-distrib/terminal.c:404-417 | puts a saved terminal on display byte for byte |
| `Terminals.Multiplexer.SwitchTo` | student-distrib/terminal.c:336-417 | every open terminal keeps its page, cursor and line buffer; a new one starts cleared with count 0; the shared count is otherwise left as it is |
| `Terminals.Multiplexer.WriteText` | student-distrib/terminal.c:294-298 | writing changes the displayed terminal's history only |
| `Terminals.Multiplexer.PressKey` | student-distrib/terminal.c:128-162 | newline, backspace, printable key, full buffer and blocked cursor as equations on buffer and count, in the displayed terminal only |
| `Terminals.KeysType` | student-distrib/terminal.c:128-162 | after any keys on a cleared line the filled part is the text typed, each backspace taking back the last character left, at most 127; behind it NULs until the first newline |
| `Terminals.LineEntered` | student-distrib/terminal.c:128-133 | after a newline the buffer starts with the text typed and the newline, and the count is 0 |
| `Terminals.KeysOnDisplay` | student-distrib/terminal.c:128-162 | keys change the line of the terminal on display and no other |
| `Terminals.InStepIff` | student-distrib/terminal.c:376-417 | against three terminals with counts of their own, an operation keeps buffers and live count right if and only if it is not a switch between open terminals with different counts; back on an open terminal the live count is its own if and only if the counts agree |
| `Terminals.RunInStepIff` | student-distrib/terminal.c:128-179 | all through a run buffers and count are right if and only if no switch of the run is lossy |
| `Terminals.KeyMisplaced` | student-distrib/terminal.c:157-162 | with a wrong count a printable key gives the terminal's own line if and only if both places already hold that key |
| `Terminals.CountLost` | student-distrib/terminal.c:376-417 | typing a, opening a second terminal, coming back and typing b leaves the line b instead of ab |
| `Terminals.Multiplexer.StageImage` | student-distrib/filesystem.c:318-319 | staging up to 0x3000 bytes changes no terminal |
| `Terminals.StagingSafeIff` | student-distrib/terminal.h:35-37 | staging is harmless for every content if and only if the image has at most 0x3000 bytes |
| `Terminals.OwnHistory` | student-distrib/terminal.c:336-417 | over every run a terminal's history is exactly what was written while it was on display |
| `Terminals.Multiplexer.Drive` | student-distrib/terminal.c:336-417 | over every run each open terminal, shown or saved, shows its own history |
| `Kernel.Globals.FindFree` | student-distrib/systemcalls.c:181-194 | the skipping search returns the first free of 1, 4, 5, 6, or 7 |
| `Kernel.Globals.Execute` | student-distrib/systemcalls.c:172-290 | which pid is chosen, and field by field what starting it changes; a refused or failed call keeps directory, count, terminals and key flags and, on a sound table, takes at most a free entry for the caller; sound stays sound if and only if benign |
| `Kernel.Globals.Halt` | student-distrib/systemcalls.c:28-59 | field by field for programs and for the shells of a sound table; sound stays sound if and only if benign; a program on a sound table returns to the process its entry names |
| `Kernel.Globals.SwitchKey` | student-distrib/terminal.c:163-179 | field by field for the terminal on display, another open one and a first one; sound stays sound if and only if benign |
| `Kernel.Globals.Drive` | student-distrib/systemcalls.c:172-290 | every run of benign calls keeps the table sound |
| `Tasks.BootedSound` | student-distrib/systemcalls.c:195-198 | the table after the first shell is sound |
| `Tasks.ExecuteLaw` | student-distrib/systemcalls.c:181-290 | pid 1 first, then a shell asked for, else the first free of 1, 4, 5, 6; every field after a start and after a refusal or failed load |
| `Tasks.FailedLoadLaw` | student-distrib/systemcalls.c:238-241 | on a sound table a failed load keeps everything but a free program entry, which names the caller, and the caller's area |
| `Tasks.ProgramHaltLaw` | student-distrib/systemcalls.c:48-59 | every field after the halt of a program |
| `Tasks.ShellHaltLaw` | student-distrib/systemcalls.c:33-46 | every field after the halt of a shell of a sound table: which pid runs, what is counted, which flag stays |
| `Tasks.AnyShellHaltLaw` | student-distrib/systemcalls.c:33-46 | on any table, halting a shell clears its entry, raises its restart flag, lowers the count and executes a shell |
| `Tasks.SameTerminalLaw` | student-distrib/terminal.c:338-339 | the key of the terminal on display only raises its key flag |
| `Tasks.SwitchLaw` | student-distrib/terminal.c:400-417 | the key of another open terminal exchanges directories |
| `Tasks.FirstSwitchLaw` | student-distrib/terminal.c:378-399 | the first key of a terminal starts its shell as that pid; if it does not load, the process on display runs on and the key flag stays |
| `Tasks.AnyFirstSwitchLaw` | student-distrib/terminal.c:378-399 | on any table, the first key of a terminal saves the directory, shows and marks the terminal, raises its key flag and executes a shell |
| `Tasks.PushKeeps` | student-distrib/systemcalls.c:221-236 | a new pid goes on top of the displayed terminal's stack |
| `Tasks.HaltKeeps` | student-distrib/systemcalls.c:48-59 | halting a program pops the stack and restores its parent's page directory |
| `Tasks.NewStackKeeps` | student-distrib/terminal.c:378-399 | a terminal's first shell starts a new stack disjoint from the others |
| `Tasks.StepSoundIff` | student-distrib/systemcalls.c:28-290 | a call keeps the table sound (counts right, nothing pending, one stack per terminal) if and only if it is benign |
| `Tasks.RunsStaySound` | student-distrib/systemcalls.c:28-290 | so does every run of benign calls |
| `Tasks.ChainReachesShell` | student-distrib/systemcalls.c:221-223 | parent entries lead to the shell of the process's own terminal through its own live processes |
| `Tasks.NewTaskIsFresh` | student-distrib/systemcalls.c:183-223 | a successful execute takes a pid that was free and changes no other entry |
| `Tasks.ParentStaysThrough` | student-distrib/systemcalls.c:223 | a live process keeps the parent that executed it through every benign run |
| `Tasks.HaltReturnsToCaller` | student-distrib/systemcalls.c:48-59 | whatever ran in between, halt returns to the page directory of the executing process |
| `Args.Tokenise` | syscalls/ece391emulate.c:67-100 | rejects commands over 1023 bytes; else the in-place scan yields the command word and exactly its argument tokens |
| `ArgsSpec.TokensAreWords` | syscalls/ece391emulate.c:88-98 | on newline-free text the tokens are the maximal space-free words |
| `ArgsSpec.TokensUntilStop` | syscalls/ece391emulate.c:88-98 | on every text the tokens are the maximal words without space or newline, up to the first newline that does not end a word |
| `ArgsSpec.TokensOfJoin` | syscalls/ece391emulate.c:138-152 | splitting the single-space join of words gives the words back |
| `ArgsSpec.JoinFront` | syscalls/ece391emulate.c:150 | the join is the first word, a space and the join of the others |
| `Args.EmulatedGetArgs` | syscalls/ece391emulate.c:131-157 | succeeds exactly when the join and its terminator fit, and then leaves the join; a NUL is stored one byte behind the count if and only if a nonempty prefix joins to exactly the count; nothing further is touched |
| `Args.OverrunExample` | syscalls/ece391emulate.c:143 | one argument of two bytes and a buffer of two |
| `Args.EmulatedArguments` | syscalls/ece391emulate.c:67-157 | end to end: the program sees the join of the argument words, and re-splitting it gives them back; same condition for the stray NUL |
| `Args.Pcb.ParseCmd` | student-distrib/systemcalls.c:86-163 | every byte of the memory from the command field on, whatever it held, for every command; read as a string the field is the parsed command below 40 bytes, and for longer ones exactly when `CommandKept`; for plain commands it is the first word |
| `Args.CommandStoredIff` | student-distrib/systemcalls.c:96-99 | the field read as a string is the parsed command if and only if it has fewer than 40 bytes or what lies behind agrees with it |
| `Args.DeliveredIff` | student-distrib/systemcalls.c:149-161 | the stored argument is the one parsed if and only if it has at most 40 bytes or its byte 40 equals its length |
| `Args.Pcb.GetArgs` | student-distrib/systemcalls.c:508-525 | clears 1024 bytes of the caller's memory and copies the argument, cut at the count given; refuses NULL and negative counts |
| `Args.FetchKeepsRestIff` | student-distrib/systemcalls.c:515-518 | the bytes behind the caller's count are kept if and only if those cleared were zero |
| `Args.KernelArguments` | student-distrib/systemcalls.c:86-525 | end to end for every command: the program sees the parsed argument as stored, cut at the count; for plain commands, the argument words run together |
| `ArgsSpec.KernelReads` | student-distrib/systemcalls.c:137-162 | without leading space or newline the command is the first word and the argument the others concatenated |
| `ArgsSpec.KernelSplitsAt` | student-distrib/systemcalls.c:137-159 | for every text without a leading space, newlines included, the command is what stands before the first space and the argument everything behind without spaces |
| `ArgsSpec.LayersAgreeIff` | student-distrib/systemcalls.c:137-162 | kernel and emulation layer give the same argument string if and only if there is at most one argument word |
| `ArgsSpec.BytesCollected` | student-distrib/systemcalls.c:115-128 | command and argument together hold exactly the bytes from the start on that are not spaces |
| `ArgsSpec.LeadingSpacesIff` | student-distrib/systemcalls.c:102-131 | a command that starts with spaces is read like the same command without them if and only if it has no other space |
| `ArgsSpec.LeadingSpaceMisread` | student-distrib/systemcalls.c:104-112 | of " a b" the kernel takes "b" for the command |
| `Numbers.Strlen` | student-distrib/lib.c:342-350 | the length up to the first NUL |
| `Numbers.Strrev` | student-distrib/lib.c:317-333 | reverses the string in place and touches nothing else |
| `Numbers.DigitsBackwards` | student-distrib/lib.c:296-301 | writes the numeral's digits in reverse and touches nothing else |
| `Numbers.Itoa` | student-distrib/lib.c:275-308 | leaves the numeral of any 32-bit value in any radix 2 to 36: digits of the table below the radix, no leading zero, the right value, NUL-terminated, within 33 bytes; touches nothing else |
| `Numbers.ParseNumeral` | student-distrib/lib.c:275-308 | the numeral parses back to the value and has no leading zero |
| `Numbers.NumeralUnique` | student-distrib/lib.c:278-301 | the numeral is the only string of table digits below the radix, without a leading zero, that has its value |
| `Numbers.DigitsApart` | student-distrib/lib.c:278 | no two digits of the table have the same value |
| `Numbers.HexAlternate` | student-distrib/lib.c:156-165 | always 8 hexadecimal digits of the table, with the same value |
| `Numbers.Decimal` | student-distrib/lib.c:181-194 | a minus sign for negative values, then decimal digits only; parses back to the signed value |
| `Memory.Memmove` | student-distrib/lib.c:514-535 | for every overlap the destination gets the original source bytes and nothing else changes |
| `Memory.Memset` | student-distrib/lib.c:361-398 | the aligned form is a byte-by-byte fill |
| `Memory.Memcpy` | student-distrib/lib.c:462-502 | head bytes, words and tail bytes, each read before it is written |
| `Memory.CopiesRightIff` | student-distrib/lib.c:462-502 | the copy is right for every content if and only if regions are apart, the copy goes down, or it is one aligned word |

## Left out

- Port I/O, interrupt and descriptor tables, paging contents, boot code and the assembly that changes stack or privilege: registers other than CR3 are not modelled.
- Keyboard scancodes, and `keyboard_read`'s echo, tab and its own scroll.
- `Terminals.Multiplexer.PressKey`: models a key's effect on the line buffer and its count, not the echo on the screen; whether the cursor is in the last column or right behind the prompt is a parameter.
- `Terminals.Multiplexer.SwitchTo`: the file structures, stack pointers and page directory saved with a terminal are not part of it.
- `read_helper`, and the return value of `write_helper`, which reads a variable that need not have been set.
- Directory reads and name lookup, `open` (it shares two globals with reads and closes), `filesystem_write`, `vidmap`, signals.
- `Frames.AddFrames`: starts after the two opens, with the second file opened last; on a file that `read_data` refuses it would not end, which `Frames.RowEndsIff` states.
- `Grep.DoOneFile`: opening, closing and the error messages are not modelled. Nothing is said about the output for files with NUL bytes or when the uninitialised byte after the buffer happens to hold a newline.
- `Args.Pcb.GetArgs`: the array is the caller's memory from its buffer on, of which `getargs` always uses 1024 bytes.
- `Numbers.Decimal`: negates the least 32-bit value by wrap-around, which C leaves undefined.
- `FileSystem.OpenFiles.ReadData`: counts that wrap past 2^32 when added to the offset, which take a buffer of almost 4 GB; inodes have at most 1023 blocks.
- `Kernel.Globals.Execute`: whether the program loads is a parameter, and so is whether the command starts with "shell".
- `fork`, `execv`, `mmap` and directory streams of the emulation layer.
- The demonstration programs pingpong, counter, hello, sigtest, testprint and syserr.
