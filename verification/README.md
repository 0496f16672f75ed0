# A verified model of a small teaching kernel

The kernel multiplexes three text terminals over one 80x25 screen, runs up to six
processes under a round-robin scheduler, reads files from a block image and ships a few
user programs. This project models its seven state machines in Dafny and proves what each
of them keeps over every run. `dafny verify dfyconfig.toml` checks everything.

How the pieces fit together:

- `Bytes`, `Memory`, `Digits`: bytes and C strings, the memory primitives, number formatting.
- `Document`, `Terminals`, `Keyboard`: a console is an unbounded tape of cells of which the last
  25 rows are on the screen. The class `Terminals.Console` holds the 16 KB of physical memory from
  0xB8000 on (the video page and three 4 KB stores) and is proved to show exactly three such
  documents, whatever is written and however the terminals are switched. On top of it stands the
  line discipline: what is on the screen, what is in the key buffer and what a reader gets. `Typing` says
  which keys a text needs on a US keyboard, apart from the handler's tables, and proves the way from these
  keys to the screen and to the reader.
- `FileSystem`, `Commands`, `Descriptors`: the file system on the bytes of its image, name lookup
  and command parsing, the descriptor table, and `cat` from a file name to the file's contents. `DiskImage`
  writes a disk (directory, index nodes, scattered data blocks) as an image, from the layout alone, and proves
  that the kernel and the programs read back exactly what was written.
- `Lines`, `Grep`: grep's scanner with its 1024-byte sliding buffer, against splitting the file into lines.
- `ProcessTable`, `Paging`, `KernelState`, `Kernel`: execute, halt, the timer tick and the terminal
  switch as steps of one state machine. The process table is three stacks of process ids; the class
  `Kernel.Machine` updates the arrays and registers in place and takes exactly the steps of that machine.
- `BlinkTiming`, `BlinkPool`, `Blink`: the blinking characters of fish, an intrusive list whose nodes
  come from a pool in which location 0 means free, against a plain list of entries.

Conventions. A `ghost` field or parameter carries the abstract state only. Widths are explicit where
they matter: 16-bit countdowns, 32-bit sums in `read_data`, 32-bit words for addresses. Pointers that
the callers never pass as NULL are not nullable here. Where code and comments disagree the model
follows the code: a tab moves by 8 columns although the comment in `putc` says 4; `terminal_read`
ignores the requested length; `read_data` never returns -1; the 64th slot that name lookup reads lies
behind the boot block.

Six places where a natural property fails, with the exact condition:

- grep prints exactly the lines of a file that contain the pattern if and only if each of these lines
  has at most 1024 bytes and the pattern does not start with a non-ASCII byte (`Grep.OutputIsExactIff`,
  also in the contract of `Grep.DoOneFile`). `Grep.NonAsciiIsMissed` and `Grep.LongLineIsBroken` are two
  failing inputs; `Grep.Output` says what is printed in every case.
- A name that no directory entry has is not found if and only if the 32 bytes behind the boot block do not
  spell it (`DiskImage.LookupOn`), because lookup reads 64 slots and the boot block holds 63;
  `DiskImage.PhantomOnDisk` finds a file "a" that is not there, and it is the RTC.
- execute, and halt of a root shell, keep the kernel's invariant if and only if the calling process runs on
  the visible terminal (`KernelState.StartedOkIff`, `KernelState.RestartedOkIff`), and a run keeps it
  throughout if and only if processes are started from the visible terminal only
  (`KernelState.RunIsSafeIff`). `Kernel.HiddenExecuteFails` reaches a failing call right after boot.
- A successful add keeps the blink pool and list consistent if and only if the location is not 0
  (`BlinkPool.AddConsistentIff`); `Blink.BlinkList.ZeroLocationLoops` shows the list becoming a loop.
- A synced entry is displayed as it should be if and only if it is off or its two characters are the same
  (`Blink.BlinkList.Sync`), because the conditional move that would pick the on character never fires.
- A tab that wraps on the bottom row lands in column 0 and not in column 8, because scrolling resets
  the column (`Document.WrappingTabColumn`).

## Model

| member | source | states |
|---|---|---|
| `Memory.Memcpy` | student-distrib/lib.c:400-437 | for disjoint regions, every alignment and every length, the align-head, word-body, byte-tail copy equals the simultaneous copy of n bytes and changes nothing else |
| `Memory.Memmove` | student-distrib/lib.c:446-464 | the same for every overlap of source and destination |
| `Memory.Memset` | student-distrib/lib.c:317-351 | exactly n bytes take the low byte of c, for every alignment and length |
| `Memory.FillWordBytes` | student-distrib/lib.c:347-347 | all four bytes of the word given to stosl are the fill byte |
| `Digits.RoundTrip` | student-distrib/lib.c:249-279 | reading the numeral back in its radix gives the value |
| `Digits.NoLeadingZero` | student-distrib/lib.c:249-279 | no leading zero, except for the value 0, which is printed as one zero |
| `Digits.NumeralLength` | student-distrib/lib.c:267-272 | a value below b^k has at most k digits in every radix from b on, so 33 bytes suffice for every value and radix |
| `Digits.DigitsInOrder` | student-distrib/lib.c:249-279 | literal numerals: digits are 0 to 9 and then A to Z, most significant first |
| `Digits.Itoa` | student-distrib/lib.c:249-279 | whenever numeral and NUL fit, the buffer holds exactly these and nothing else changes |
| `Digits.WriteDigits` | student-distrib/lib.c:267-275 | the digit loop leaves the numeral backwards, with a NUL after it |
| `Digits.Strrev` | student-distrib/lib.c:285-298 | the string is reversed in place and nothing else changes |
| `Digits.Strlen` | student-distrib/lib.c:304-309 | the number of bytes before the NUL |
| `Digits.PrintHex` | student-distrib/lib.c:87-97 | %#x prints exactly eight upper-case hexadecimal digits that denote the value |
| `Document.BackspaceUndoes` | student-distrib/lib.c:186-218 | a character followed by backspace returns to the same cell and blanks it, even across a wrap or a scroll, and nothing else differs |
| `Document.WrappingTabColumn` | student-distrib/lib.c:178-184 | a wrapping tab goes to the next row and changes no cell; it lands in column 8 if and only if it does not leave the last row, and there in column 0 |
| `Document.ScrolledRowsAreFinal` | student-distrib/lib.c:544-564 | rows scrolled off the screen never change again, over every byte string |
| `Document.TextIsConsecutive` | student-distrib/lib.c:202-218 | text without control bytes fills consecutive cells from the cursor on, however often it wraps or scrolls |
| `Document.RunConcat` | student-distrib/lib.c:160-167 | printing two strings one after the other is printing their concatenation |
| `Document.NewlineStartsRow` | student-distrib/lib.c:169-174 | newline and carriage return go to column 0 of the next row and keep every cell; past the last row that row is new and blank |
| `Document.TextOnTwoRows` | student-distrib/lib.c:169-218 | text, a newline, more text: the second text is in consecutive cells from the start of the row after the first one's end |
| `Document.NarrowTab` | student-distrib/lib.c:175-178 | a tab that does not wrap moves by exactly 8 columns and changes no cell |
| `Document.BackspaceErases` | student-distrib/lib.c:186-201 | backspace blanks the cell before the cursor and goes there; at the top left it stays |
| `Terminals.Console.constructor` | student-distrib/keyboard.c:157-167 | after start-up terminal 0 is visible and shows whatever characters were on the screen, because nothing clears it; terminals 1 and 2 are empty |
| `Terminals.Console.ScrollCells` | student-distrib/lib.c:544-561 | every row takes the next row's characters, the last row is blank, every attribute is ATTRIB, the stores are untouched |
| `Terminals.Console.ScrollUp` | student-distrib/lib.c:544-564 | the screen shows the document with one more blank row and the cursor at its start |
| `Terminals.Console.HandleEnter` | student-distrib/lib.c:169-174 | the video page shows the document after a newline, and the cursor is in column 0 of the next row |
| `Terminals.Console.HandleTab` | student-distrib/lib.c:175-185 | the video page shows the document after a tab, with the column-0 exception on the last row |
| `Terminals.Console.HandleBackspace` | student-distrib/lib.c:186-201 | the video page shows the document after a backspace |
| `Terminals.Console.HandleNormalChar` | student-distrib/lib.c:202-218 | the video page shows the document after a character |
| `Terminals.Console.Putc` | student-distrib/lib.c:224-241 | the visible terminal's document takes one step, screen, cursor and hardware cursor agree with it, no other terminal changes |
| `Terminals.Console.Clear` | student-distrib/lib.c:19-28 | the visible terminal starts over from the empty document |
| `Terminals.Console.Puts` | student-distrib/lib.c:160-167 | the visible document becomes the fold over the string, for every string |
| `Terminals.Console.UpdateCursor` | student-distrib/lib.c:572-579 | the two port bytes denote row times 80 plus column |
| `Terminals.Console.CellAt` | student-distrib/lib.c:202-206 | the address of every cell of every terminal: two bytes a cell, 80 cells a row, 25 rows, 4 KB a terminal, attribute 7 |
| `Terminals.Console.TerminalOpen` | student-distrib/terminal.c:11-40 | every store is blank and every terminal record reset, the video page is not touched |
| `Terminals.Console.SaveAndSwitch` | student-distrib/systemcalls.c:539-560 | all three documents stay what they were, only which one is shown changes |
| `Terminals.Console.Play` | student-distrib/systemcalls.c:539-560 | for every interleaving of output and switches, each terminal's document is the fold of exactly the bytes written while it was visible |
| `Terminals.Console.TerminalWrite` | student-distrib/terminal.c:96-133 | the foreground path prints the bytes that are not NUL; nothing is printed while 128 keys wait for Enter |
| `Terminals.NonNulKeeps` | student-distrib/terminal.c:110-124 | text is printed as it is, and NULs are left out wherever they stand |
| `Keyboard.KeysAreText` | student-distrib/keyboard.c:16-150 | apart from Enter, Tab and Backspace no key yields a console control byte, under any modifiers |
| `Keyboard.CapsFlipsShiftOnLetters` | student-distrib/keyboard.c:325-340 | on letter keys Shift and Caps Lock cancel out |
| `Keyboard.CapsKeepsOtherKeys` | student-distrib/keyboard.c:325-340 | on all other keys Caps Lock has no effect |
| `Keyboard.ClassifyEdits` | student-distrib/keyboard.c:180-315 | every scan code but the two arrows edits the line, tabulates, clears the screen, switches terminals or has no effect |
| `Keyboard.ActionAt` | student-distrib/keyboard.c:180-315 | every scan code of a run is read under the modifiers held when it arrives |
| `Terminals.TypeEchoes` | student-distrib/keyboard.c:308-313 | a typed character extends buffer and screen line by the same byte and leaves the cells before the line alone |
| `Terminals.EraseEchoes` | student-distrib/keyboard.c:223-232 | Backspace drops the last byte of both and cannot leave the line |
| `Terminals.EnterEchoes` | student-distrib/keyboard.c:212-219 | Enter makes the line readable and starts an empty one |
| `Terminals.TypingIsEchoed` | student-distrib/keyboard.c:174-318 | over every run of editing keys the cells from the line start to the cursor equal the key buffer, the line is what the keys mean, and no cell before the line start ever changes |
| `Terminals.Console.KeyboardHandler` | student-distrib/keyboard.c:174-318 | one scan code has exactly the effect of its action on document, key buffer and modifiers; Alt-F1..F3 only switch |
| `Terminals.Console.TypeKeys` | student-distrib/keyboard.c:174-318 | a run of scan codes takes the visible terminal through the actions they denote |
| `Terminals.Console.TerminalRead` | student-distrib/terminal.c:57-89 | a read after Enter delivers the finished line, a newline and a NUL, and writes nothing else |
| `Terminals.Console.ReadLine` | student-distrib/terminal.c:57-89 | any run of editing keys, Enter and a read deliver exactly the edited line plus newline |
| `Typing.KeyTypes` | student-distrib/keyboard.c:16-150 | for each of the 95 printable characters, the key of a US keyboard with or without Shift gives it, with Caps Lock on or off |
| `Typing.ModifierKeys` | student-distrib/keyboard.c:182-211 | each modifier is held from its scan code to its release code, and Caps Lock twice restores it |
| `Typing.TabKey` | student-distrib/keyboard.c:220-222 | the Tab key tabulates and leaves the line alone |
| `Typing.CtrlL` | student-distrib/keyboard.c:298-305 | Ctrl-L clears the screen and leaves the line alone |
| `Typing.QuietKeys` | student-distrib/keyboard.c:233-263 | releasing a key that is no modifier, and the up and down keys, do nothing |
| `Typing.KeyThenBackspace` | student-distrib/keyboard.c:223-232 | a character key then Backspace restores line, cursor and all cells before it; on a full line the last byte is dropped |
| `Typing.AltF` | student-distrib/keyboard.c:264-292 | Alt with F1, F2, F3 makes terminal 0, 1, 2 visible |
| `Typing.TextIsFed` | student-distrib/keyboard.c:293-313 | the strokes of any printable text extend the line by exactly that text, up to 128 bytes |
| `Typing.TextAppears` | student-distrib/keyboard.c:293-313 | and the screen shows exactly that text from the line start to the cursor |
| `Typing.TypeText` | student-distrib/terminal.c:57-89 | typing any printable text, Enter and a read deliver exactly that text and a newline |
| `FileSystem.ReadData` | student-distrib/filesystem.c:87-122 | for every inode, offset and length the buffer gets exactly file[offset .. min(offset+length, size)), that length is returned, nothing else is written, and the loop ends despite its guard |
| `FileSystem.CopyFromBlock` | student-distrib/filesystem.c:103-118 | one memcpy out of a data block delivers the file bytes of that block; a zero-byte copy only looks the block number up |
| `FileSystem.ReadBytes` | student-distrib/filesystem.c:87-122 | a read delivers exactly the part of the flat file that was asked for |
| `FileSystem.WordIsLittleEndian` | student-distrib/filesystem.h:11-30 | a 32-bit field of the image is its four bytes, lowest first, as the memory primitives store it |
| `Commands.Strncmp` | student-distrib/lib.c:477-491 | zero exactly when the strings agree once cut at NUL or at n bytes; otherwise the difference of the first two bytes that differ, as signed chars |
| `Commands.Strncpy` | student-distrib/lib.c:514-525 | exactly the first n bytes change: they become the source cut at NUL or n bytes, padded with NULs |
| `Commands.ReadDentryByName` | student-distrib/filesystem.c:127-142 | the lowest of the 64 slots whose name, cut at NUL or 32 bytes, equals the given name; failure exactly when there is none |
| `Commands.Rejoin` | student-distrib/systemcalls.c:395-417 | first word, space and rest give the command back |
| `Commands.Parse` | student-distrib/systemcalls.c:368-419 | the two buffers hold the first word and the rest, padded with NULs |
| `Commands.FindCommand` | student-distrib/systemcalls.c:38-46 | execute looks up the lowest slot named by the command's first word and keeps the rest as arguments |
| `Descriptors.Process.constructor` | student-distrib/systemcalls.c:472-500 | descriptors 0 and 1 are the console, 2 to 7 are closed |
| `Descriptors.Process.EnterUserMode` | student-distrib/handlers.S:79-86 | entering user mode overwrites descriptor 0's operation pointer and inode, and nothing else |
| `Descriptors.Process.Open` | student-distrib/systemcalls.c:202-258 | the least free descriptor in 2..7 gets the file of the lowest matching slot; it fails exactly on an empty or unknown name, an unknown type or a full table, changing nothing |
| `Descriptors.Process.Close` | student-distrib/systemcalls.c:264-278 | only an open descriptor in 2..7 can be closed, and its own close operation is called |
| `Descriptors.Process.CloseAll` | student-distrib/systemcalls.c:125-132 | halt leaves descriptors 2 to 7 closed without an operation table |
| `Descriptors.Process.DispatchRead` | student-distrib/systemcalls.c:284-298 | a read that passes its guard goes through a real table; descriptor 0 always reaches the terminal |
| `Descriptors.Process.DispatchWrite` | student-distrib/systemcalls.c:304-314 | a write that passes its guard goes through a real table |
| `Descriptors.Process.Serve` | student-distrib/systemcalls.c:202-314 | over every run of calls and entries to user mode, the table and what each call is dispatched through are those of the abstract fold; every dispatch goes through one of the four tables, and descriptors 0 and 1 always reach the terminal |
| `Descriptors.RunsAreServed` | student-distrib/systemcalls.c:202-314 | at every point of every run descriptors 0 and 1 are in use and the next dispatch goes through a real table |
| `Descriptors.UsedAt` | student-distrib/systemcalls.c:202-314 | what a call in a run is dispatched through is decided by the calls before it |
| `Descriptors.OpenThenClose` | student-distrib/systemcalls.c:202-278 | opening and closing leaves every other descriptor alone, closes through the opened file's table, and the next open gets the same descriptor |
| `Descriptors.Process.FileRead` | student-distrib/filesystem.c:184-230 | the next min(nbytes, size - pos) bytes are delivered, the position moves past them, and the repair at lines 222-223 never changes a result |
| `Descriptors.Process.ReadChunks` | student-distrib/filesystem.c:184-230 | over every sequence of reads the chunks concatenate to the bytes between first and last position, and a positive read is empty only at the end |
| `Descriptors.Process.Cat` | syscalls/ece391cat.c:21-28 | the loop ends, having copied exactly the rest of the file |
| `Descriptors.Process.CatDirectory` | syscalls/ece391cat.c:21-28 | on a directory the same loop ends with the padded names of slots 0 to 16 |
| `Descriptors.Process.DirectoryRead` | student-distrib/filesystem.c:147-157 | the name of the next slot, padded to 32 bytes, and the position moves by one; 0 exactly past slot 16, changing nothing |
| `Descriptors.Process.List` | syscalls/ece391ls.c:19-27 | the loop of ls ends, having written the padded names of slots 0 to 16 in order, each with a newline |
| `Descriptors.CatByName` | syscalls/ece391cat.c:16-30 | for every name: the contents of the lowest matching slot's file, the padded names for a directory, nothing for the RTC; failure exactly when the name cannot be opened |
| `DiskImage.FileReadsBack` | student-distrib/filesystem.c:87-122 | the file read from the image of a disk is the concatenation of its data blocks cut at its size, wherever they are scattered |
| `DiskImage.LookupOn` | student-distrib/filesystem.c:127-142 | on the image of a disk, lookup finds the first entry with the name; a name that no entry has is found exactly when the bytes behind the boot block spell it |
| `DiskImage.PhantomFile` | student-distrib/filesystem.c:134-139 | on every disk whose first file has 97 bytes, a file "a" that does not exist is found, as the RTC |
| `DiskImage.PhantomOnDisk` | student-distrib/filesystem.c:134-139 | one such disk, with a single file of 97 bytes |
| `DiskImage.OpenOn` | student-distrib/systemcalls.c:202-258 | what open gives for each kind of directory entry |
| `DiskImage.ListingOn` | student-distrib/filesystem.c:147-157 | the names of the directory, padded, slot by slot |
| `DiskImage.ReadOn` | student-distrib/filesystem.c:87-122 | read_data on the image returns the asked part of the file on the disk |
| `DiskImage.CatOn` | syscalls/ece391cat.c:16-30 | cat on the image returns the file of that name |
| `DiskImage.CatDirectoryOn` | syscalls/ece391cat.c:16-30 | cat on a directory returns its padded names |
| `DiskImage.GrepOn` | syscalls/ece391grep.c:9-66 | grep on the image scans the file of that name |
| `DiskImage.PackReadsBack` | student-distrib/filesystem.h:11-35 | the round trip: every file of a list, written to an image, is found under its name and read back exactly, and cat writes it |
| `Lines.PieceAtNewline` | syscalls/ece391grep.c:30-56 | a newline within the first 1024 bytes ends the next piece |
| `Lines.SkipLine` | syscalls/ece391grep.c:29-57 | no piece of a line that the pattern does not hit is selected, however long the line is |
| `Lines.RenderInjective` | syscalls/ece391grep.c:45-48 | the output determines the lines that were printed |
| `Lines.LinesAreTheFile` | syscalls/ece391grep.c:29-57 | writing the lines of a file gives the file back |
| `Lines.OutputReadsBack` | syscalls/ece391grep.c:45-48 | reading printed lines back at newlines and first colons gives exactly the name and the lines |
| `Lines.SameSelection` | syscalls/ece391grep.c:20-60 | when every line that the pattern hits has at most 1024 bytes, the scanner's pieces and the lines select the same lines |
| `Lines.LongLineIsLost` | syscalls/ece391grep.c:20-60 | a longer line that the pattern hits is never selected whole |
| `Lines.SelectionIsExactIff` | syscalls/ece391grep.c:20-60 | for every file and pattern, pieces and lines select the same lines if and only if no line that the pattern hits is longer than 1024 bytes |
| `Grep.Strncmp` | syscalls/ece391support.c:35-46 | zero exactly when the pattern occurs at the start of the buffer string; otherwise the difference of the first two bytes that differ |
| `Grep.Search` | syscalls/ece391grep.c:40-51 | a line is a hit exactly when it contains the pattern and the pattern starts with an ASCII byte |
| `Grep.StrcpyDown` | syscalls/ece391support.c:14-17 | an overlapping copy down moves the string and leaves the rest of the buffer as it was |
| `Grep.OutputStep` | syscalls/ece391grep.c:29-57 | what is owed from one offset is the next piece's entry and what is owed after it |
| `Grep.ScanBuffer` | syscalls/ece391grep.c:28-57 | the inner loop prints what the complete lines deserve, moves an incomplete line to the front, and leaves no newline anywhere in the buffer |
| `Grep.DoOneFile` | syscalls/ece391grep.c:9-66 | for every file without NUL bytes the scanner ends; the output, read back at newlines and first colons, is the file's name with each piece containing the pattern, in order; these are exactly the matching lines if and only if the exactness condition holds; it fails exactly when the file cannot be opened, and leaves the open descriptors as they were |
| `Grep.ScanFile` | syscalls/ece391grep.c:20-60 | the two loops end, having printed what is owed for the whole file, and touch no other descriptor |
| `Grep.OutputIsExactIff` | syscalls/ece391grep.c:20-60 | for every file and pattern, exactly the matching lines are printed if and only if each has at most 1024 bytes and the pattern does not start with a non-ASCII byte |
| `Grep.OutputIsReadable` | syscalls/ece391grep.c:45-48 | the output is read back as the name with each line found; the first colon follows the name |
| `Grep.OneLine` | syscalls/ece391grep.c:45-48 | the pattern x and the line x in file f print f:x and a newline |
| `Grep.NonAsciiIsMissed` | syscalls/ece391grep.c:43-43 | the byte C3 is not found in a file that consists of it |
| `Grep.LongLineIsBroken` | syscalls/ece391grep.c:20-60 | a matching line of 1025 bytes is printed as two |
| `Grep.GrepDirectory` | syscalls/ece391grep.c:84-96 | the names of slots 0 to 16 are scanned in order, those that start with a dot are skipped, and the first one that cannot be opened ends the program |
| `Grep.GrepSlotStep` | syscalls/ece391grep.c:84-96 | slot by slot: names with a dot are skipped, a name that cannot be opened ends grep, other files add their lines |
| `Grep.GrepMain` | syscalls/ece391grep.c:68-98 | from an empty process: exit code and whole output, over all directory slots |
| `ProcessTable.ChainsPartition` | student-distrib/systemcalls.c:48-57 | the occupied slots are the disjoint union of the three chains |
| `ProcessTable.ExecInv` | student-distrib/systemcalls.c:48-57 | execute into the first free slot keeps the invariant |
| `ProcessTable.PopInv` | student-distrib/systemcalls.c:150-161 | halt of a process that is not a root shell keeps the invariant and returns to its parent |
| `ProcessTable.RestartTable` | student-distrib/systemcalls.c:150-158 | a restarted root shell gets its own slot back and no chain changes |
| `ProcessTable.RootIff` | student-distrib/systemcalls.c:155-155 | a process is a root shell exactly when its id is 0, 1 or 2 |
| `ProcessTable.BootSlot` | student-distrib/schedule.c:24-44 | the root shells boot into slots 0, 1 and 2 in turn |
| `ProcessTable.ChainsDetermine` | student-distrib/systemcalls.c:48-57 | the chains determine the occupancy table and each terminal's process |
| `Paging.MaskGivesPcb` | student-distrib/systemcalls.c:506-512 | masking any stack pointer in a process's 8 KB gives its PCB |
| `Paging.StacksDisjoint` | student-distrib/systemcalls.c:83-94 | kernel stacks of different processes never overlap |
| `Paging.StackTopIsTop` | student-distrib/systemcalls.c:94-94 | the loaded stack pointer is the top word of the process's 8 KB |
| `Paging.PushesStay` | student-distrib/systemcalls.c:94-94 | everything pushed below it stays in the 8 KB, and not one byte more belongs to it |
| `Paging.StackAddresses` | student-distrib/systemcalls.c:68-94 | the literal addresses of all six PCBs, stack tops and pages |
| `Paging.EntryMapsOwnPage` | student-distrib/systemcalls.c:68-68 | the directory entry maps the process's own 4 MB page, present, writable, user, large (section 4.3 of the Intel SDM volume 3A) |
| `Paging.PagesDisjoint` | student-distrib/systemcalls.c:68-68 | pages of different processes never overlap, nor does a page overlap a kernel stack |
| `KernelState.StartedOk` | student-distrib/systemcalls.c:48-101 | a successful execute from the visible terminal keeps the kernel invariant |
| `KernelState.StartedOkIff` | student-distrib/systemcalls.c:48-101 | execute keeps the invariant if and only if the running terminal is the visible one; otherwise no chains and no history explain the result |
| `KernelState.LeftOk` | student-distrib/systemcalls.c:150-191 | halt keeps it: the parent's page and a stack pointer in the parent's stack are loaded |
| `KernelState.RestartedOk` | student-distrib/systemcalls.c:150-158 | halt of a root shell on the visible terminal keeps the invariant and every chain |
| `KernelState.RestartedOkIff` | student-distrib/systemcalls.c:150-158 | the same for halt of a root shell |
| `KernelState.BootTickOk` | student-distrib/schedule.c:24-44 | a booting tick keeps it and starts the next root shell in its slot |
| `KernelState.LastBootTickOk` | student-distrib/schedule.c:45-55 | so does the tick after the last root shell |
| `KernelState.RoundTickOk` | student-distrib/schedule.c:56-94 | a round-robin tick keeps it and restores the registers saved at the latest tick where the next terminal was running |
| `KernelState.TickLoadsTop` | student-distrib/schedule.c:74-86 | a booting and a round-robin tick leave the running process an empty kernel stack |
| `KernelState.StepKeepsOk` | student-distrib/schedule.c:19-99 | a step of the kernel keeps the invariant if and only if it does not start a process from a hidden terminal; otherwise no chains and no history explain the result |
| `KernelState.RunsAreSafe` | student-distrib/schedule.c:19-99 | in every run that starts processes from the visible terminal only: the counter is at most 4, the keyboard is off until round robin, the running process has its own page and stack, saved registers are those of the latest tick |
| `KernelState.RunIsSafeIff` | student-distrib/schedule.c:19-99 | a run satisfies the invariant throughout if and only if processes are started from the visible terminal only |
| `KernelState.TickParks` | student-distrib/schedule.c:56-94 | a tick on the running process's stack keeps every other terminal's saved stack pointer in its own process's stack, and so is the one that round robin resumes |
| `KernelState.RunsAreResumable` | student-distrib/schedule.c:19-99 | over every such run, every terminal that is not running is parked on the kernel stack of its own process |
| `KernelState.RunningIsIsolated` | student-distrib/systemcalls.c:68-98 | in every reachable state no address of the mapped page or the loaded stack belongs to another process |
| `KernelState.ChainsRestoreAll` | student-distrib/systemcalls.c:150-164 | equal chains mean equal occupancy, processes and page mapping |
| `Kernel.Machine.Execute` | student-distrib/systemcalls.c:23-106 | fails exactly on an invalid command or six taken slots, changing nothing; otherwise starts a process in the first free slot on the visible terminal with an empty kernel stack of its own, stores its parent's registers, and keeps the invariant if and only if that is the running terminal |
| `Kernel.Machine.Halt` | student-distrib/systemcalls.c:116-195 | restarts a root shell in its own slot, or returns to the parent with the registers stored at its execute; the invariant is kept if and only if no root shell halts on a hidden terminal |
| `Kernel.Machine.RootOf` | student-distrib/systemcalls.c:53-54 | walking process_previous from a terminal's process ends at its own root shell |
| `Kernel.Machine.Tick` | student-distrib/schedule.c:19-99 | one timer interrupt takes the scheduler's step for its phase and loads the registers of the latest tick, whose stack pointer lies in the resumed process's own stack; the loaded tss.esp0 is the top word of that stack |
| `Kernel.Machine.RoundRobin` | student-distrib/schedule.c:56-94 | round-robin ticks run the terminals in turn, after each the keyboard is on exactly when the running terminal is visible, and each tick loads the registers that the tick two before it found |
| `Kernel.EachTurnOnce` | student-distrib/schedule.c:64-65 | any three consecutive round-robin ticks run each terminal once |
| `Kernel.Machine.RunNested` | student-distrib/systemcalls.c:49-190 | any properly nested run of successful executes and halts restores the occupancy table, every terminal's process, the page mapping and the PCBs of the processes that were there, and every halt loads exactly the esp and ebp of its own execute |
| `Kernel.Machine.Handle` | student-distrib/schedule.c:19-99 | the code takes exactly the steps of the state machine, and keeps its invariant exactly when the step does |
| `Kernel.Machine.Boot` | student-distrib/schedule.c:24-55 | after four ticks the three root shells sit in slots 0, 1 and 2, terminal 2 runs and terminal 0 is visible |
| `Kernel.HiddenExecuteFails` | student-distrib/systemcalls.c:48-57 | right after boot, execute by the running shell of a hidden terminal leaves a kernel that nothing explains |
| `Kernel.Machine.Show` | student-distrib/keyboard.c:264-292 | a terminal switch changes only which terminal is visible |
| `BlinkTiming.BlinksInPhase` | fish/blink.S:64-86 | the closed form of countdown and status after n ticks, for all 16-bit lengths; a length of 0 or above 0x8000 holds for one tick |
| `BlinkTiming.OnExactlyWhen` | fish/blink.S:64-86 | after n ticks the entry shows the character that is due, for all 16-bit lengths |
| `BlinkTiming.DueIsPlain` | fish/blink.S:64-86 | for lengths a and b from 1 to 0x8000 the on character is due exactly when n mod (a+b) < a |
| `BlinkTiming.DueIsOneTick` | fish/blink.S:64-86 | lengths of 0 and above 0x8000 hold for one tick each |
| `BlinkTiming.RemoveTakesOne` | fish/blink.S:187-237 | a removal takes out exactly the last entry at its location and keeps all others in order |
| `BlinkTiming.SyncedStayInStep` | fish/blink.S:267-275 | two entries just synced keep equal countdown, status and lengths at every later tick, and each keeps its own location and characters |
| `BlinkTiming.LoneRun` | fish/blink.S:49-300 | over every run that spares a location, the lone entry there stays the only one and counts exactly the ticks |
| `BlinkTiming.SyncedRun` | fish/blink.S:267-275 | the same over every run of operations that spares both |
| `BlinkPool.AddConsistentIff` | fish/blink.S:131-162 | pushing a free slot keeps pool and list consistent if and only if the location is not 0 |
| `BlinkPool.FreeHeadIsInconsistent` | fish/fish.c:160-170 | with a free slot at the head, no list at all fits the pool |
| `BlinkPool.RemoveConsistent` | fish/blink.S:206-222 | unlinking a node keeps pool and list consistent and removes that one entry |
| `BlinkPool.NoRepeats` | fish/blink.S:160-162 | the list has no repeated node |
| `BlinkPool.FullExactlyWhen` | fish/fish.c:160-170 | the list holds 2000 entries exactly when every slot is listed |
| `Blink.BlinkList.Malloc` | fish/fish.c:160-170 | the lowest slot with location 0 |
| `Blink.BlinkList.AddEntry` | fish/blink.S:105-184 | fails only off the screen or with all 2000 slots listed; otherwise adds a started entry and displays its on character |
| `Blink.BlinkList.ZeroLocationLoops` | fish/blink.S:131-162 | after adding location 0, the next add makes the list a loop |
| `Blink.BlinkList.Find` | fish/blink.S:351-379 | the most recently added entry at a location |
| `Blink.BlinkList.Remove` | fish/blink.S:187-237 | takes exactly that entry out; without one nothing changes |
| `Blink.BlinkList.AddThenRemove` | fish/blink.S:105-237 | adding an entry and removing its location restores the abstract list |
| `Blink.BlinkList.Sync` | fish/blink.S:240-300 | the entry at the low half takes the timing fields of the entry at the high half; one video byte at most changes, and the entry is displayed correctly if and only if it is off or its characters are equal |
| `Blink.BlinkList.Tasklet` | fish/blink.S:49-99 | every entry advances by one tick, and an entry alone on its location stays correctly displayed |
| `Blink.BlinkList.AddAndRun` | fish/blink.S:49-300 | an entry added where no other is, followed by any run that spares its location, shows its on character exactly when n mod (a+b) < a for the n ticks of the run, for lengths a and b from 1 to 0x8000; any other length holds for one tick |
| `Blink.BlinkList.PerformAll` | fish/blink.S:49-300 | over every run of adds at non-zero locations, removals, syncs and ticks, pool and list stay consistent and hold exactly the entries of a plain list; every lone entry that the run spares stays correctly displayed, at its number of ticks |

## Left out

- Background output (`active_terminal_*` in student-distrib/terminal.c): it tests the visible cursor and scrolls from the visible terminal's store, so it does not agree with `putc`.
- Left and right arrows in the keyboard handler: they move the cursor without keeping the key buffer in step, and can take the column below zero.
- Busy-waits of `terminal_read` and `rtc_read`: delivery is stated for a read after Enter, not for keys typed between Enter and the read, which overwrite the line.
- The executable check `check_valid`: a boolean argument of `Execute`, because it rejects only when all four magic bytes differ.
- `getargs`, `vidmap`, the other printf conversions, `strcpy`, `memset_word`, `memset_dword`: short loops or table look-ups that would only add easy members.
- `ece391_itoa` and `ece391_strrev`: the same loops as `itoa` and `strrev`.
- The messages that failing kernel calls and user programs print.
- RTC, PIT and interrupt-controller programming, IDT, GDT, TSS and boot set-up; only keyboard line 1 of the interrupt mask is kept, as one boolean.
- Direction flag after a downward `memmove`: the code leaves it set; the model has no flags.
- FileSystem.ReadData: requires that offset plus length does not wrap around 2^32 when the read starts inside the file; a wrapped sum would skip the clamp and read past the block list.
- Descriptors.Process.FileRead: negative request sizes are not modelled, because they reach `read_data` as huge unsigned lengths.
- Commands.Parse: commands whose first word or rest exceeds 32 bytes are not modelled, because the source then writes past its buffers; the buffers here have the 34th byte that lines 384-385 store to.
- Grep.DoOneFile: files with NUL bytes and a stack buffer that happens to hold a newline at the start are not modelled; the string copy and the stale-byte test then misread the buffer.
- Kernel.Machine.Tick: the shell executable is assumed to be found when a root shell is booted or restarted.
- Terminals.Console.KeyboardHandler: holds while the running terminal is the visible one, as do TypeKeys and ReadLine; between Alt-F1..F3 and the next tick the source echoes to the running terminal's store. The arrow keys are excluded.
- Terminals.Console.TypeKeys: runs without arrows and without Alt-F1..F3.
- Terminals.Console.ReadLine: editing keys only, for the same reasons; Tab and Ctrl-L move the cursor without changing the key buffer.
- Terminals.Console.TerminalRead: starts when Enter has set the read flag.
- Terminals.Console.TerminalWrite: the background branch is not modelled.
- Terminals.Console.TerminalOpen: the process fields, the saved registers and `rtc_lock` of `terminal_t` are not in the record here; the kernel model starts with zero registers.
- Terminals.Console.constructor: takes the attribute bytes left on the screen to be ATTRIB.
- Grep.GrepMain: names of directories that do not start with a dot, and the fetching of the pattern, are not modelled.
- DiskImage.GrepOn: like Grep.DoOneFile, for files without NUL bytes.
