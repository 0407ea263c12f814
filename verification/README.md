# Verification of the kernel's process, file, terminal and library code

The system is a small 32-bit x86 kernel written in C and assembly, with user programs. Up to six
processes run on three terminals. `execute` puts a program on top of the running terminal, `halt` takes
it off and continues the launcher, a timer rotates among the terminals, and nothing stores those three
stacks of processes directly: they are spread over status flags, parent pointers, counters, saved stack
pointers and words on kernel stacks.

The Dafny project models that code with its own state and branches, and proves what it is for:

* `KernelStack`, `CallStacks`, `ProcessTable`, `Refinement`, `KernelRuns`, `KernelLaws`, `Kernel`, `KernelPages`: the kernel's tables
  and stack memory as a class whose methods are proved against step functions (`ProcessTable`); a machine
  of three call stacks (`CallStacks`); and a proof that every run of the kernel, from boot on and in every
  interleaving of execute, halt, timer tick, terminal switch and other kernel work, is a run of that
  machine with the same outputs. The properties of all runs are then proved of the machine and read off
  the kernel's own outputs. `KernelLaws` says what each request and each run does in terms of the events and
  outputs alone. The class keeps the page tables of `Paging` in step with its state.
* `Paging`: the loops of `init_paging` over six directories and tables, and address translation with them
  (4 KB and 4 MB pages, Intel SDM Volume 3A, section 4.3).
* `FileSystem`, `DiskImage`, `Descriptors`, `Streams`, `Grep`: block-walking reads of the file system image,
  the image written from a directory, inodes and data blocks and read back, the descriptor table, and the
  programs `cat`, `ls` and `grep` on top of them.
* `Terminal`, `Console`: the keyboard's line editor with its echo, and `putc` against an unbounded log.
* `Blink`, `BlinkRuns`, `Fish`: the linked list of blinking characters in its fixed pool, whole runs of
  requests and ticks on it, and the merge of two files that fills it.
* `Memory`, `Numbers`: `memcpy`, `memset`, `memmove`, `itoa`, `strrev` and the number formats of `printf`.

Methods of classes, and loops over arrays, follow the source's updates in place; each is proved against a
function of the old state, or against the property itself.

## Where the code departs from its intent

Each of these is kept in the model as it is in the code, with the exact condition proved.

* The early errors of `execute` return with IRQ0 masked (student-distrib/syscall.c:77-114), so no other
  terminal runs until the next `execute` or `halt`: `MaskedAfterExecute`, `MaskedMeansNoSwitch`.
* `halt` sets `tss.esp0` to an address inside the launcher's activation of `execute` and not to the top
  of the stack, so it sinks with each program run until a context switch resets it: `LaunchesInARow`,
  `NextLaunchFits`, `SwitchMakesRoom`. A tick may interrupt kernel code above that address.
* A load that returns 0 or -1 leaves its PID busy; that needs an empty file: `PidLostExactly`, `BusyExactly`,
  `LoadFailsOnlyWhenEmpty`.
* A restarted root shell is its own parent in its PCB exactly if other programs are alive. Nothing reads
  that field of a root: `SimulateRestart`.
* `read_data` inspects one slot too many at the exact end of a file that fills its last block, and so
  returns -1 instead of 0 exactly if that slot holds more than the number of blocks; `cat` then ends
  with an error after writing everything, `grep` misses an unfinished last line, and the merge of `fish`
  never ends: `SlotChecked`, `BadSlotExactly`, `Cat`, `DoOneFile`, `MergeEnds`.
* A directory name of all 32 characters brings the type byte along as a 33rd, and an empty name ends
  the listing: `EntryStringIsName`, `ListingExactly`. `ls` writes one byte past its buffer for such a
  name: `Ls`.
* `grep` cuts lines longer than its buffer and searches the pieces: `CuttingLosesNothing`, with the
  failing pattern in `LongLineDiffers`. The byte behind its buffer is not initialised; if it happens to
  be a newline, lines are also cut as `FirstPieces` says: `DoOneFile`.
* The echo of a character scrolls the running terminal's page. If that is not the one shown, the lines
  on both pages can go wrong: `EchoExactly`, `HarmlessExactly`. `terminal_read` stores up to 128 bytes
  whatever the capacity: `ReadFits`. Ctrl-L between the end of a read and the reader's next turn on the
  CPU empties the line it gets: `LineSurvives`.
* `putc` sets the row to 24 after a wrap at the bottom: `WrapLeavesPage`, `PrintShowsLog`, `Write`.
* Adding a blinking character at location 0 makes the pool take its node for free while it is in the
  list: `AddExactly`. A sync always draws the off character: `SyncDisplay`.

## Model

| member | source | states |
|---|---|---|
| KernelStack.PopFrameInverse | student-distrib/schedule.c:131-155 | whatever mode was interrupted, the nine pops and the `iret` of `switch_to_prog` restore exactly the registers that `timer_hand` pushed |
| KernelStack.PushAllAt | student-distrib/handlers.S:9-17 | the j-th word pushed lies j + 1 words below the start, and no word outside the pushed range changes |
| KernelStack.FrameLayout | student-distrib/handlers.S:9-17 | at which offset from the saved stack pointer each of the interrupted registers lies, in both modes |
| KernelStack.FetchPcbExact | student-distrib/syscall.c:334-341 | masking an address with 0xFFFFE000 gives the PCB of a process if and only if the address lies in that process's own 8 KB |
| CallStacks.StepKeepsWellFormed | student-distrib/syscall.c:19-213 | every event keeps three non-empty stacks of pairwise distinct PIDs, each rooted at the PID of its terminal's shell |
| CallStacks.CallsMatchReturns | student-distrib/sys_call.S:57-94 | over every run, each return of a halt goes to the innermost unfinished `execute` of its own terminal, with that call's ebp, with the stack pointer that call had at its launch, and with a status in 0..255, whatever the other terminals do in between |
| CallStacks.ReturnsStatus | student-distrib/syscall.c:48-48 | over every run, each return is the output of a halt and its value is that halt's status |
| CallStacks.SwitchesResume | student-distrib/schedule.c:83-119 | over every run, each context switch resumes the registers saved when that terminal was last switched out, or starts a root shell that was never switched in or out, so each deferred shell starts at most once and before any resume |
| CallStacks.TurnCountsTicks | student-distrib/schedule.c:89-92 | whose turn it is depends on the number of ticks only, and an active terminal stays active |
| CallStacks.EveryActiveTerminalRuns | student-distrib/schedule.c:89-107 | within any three ticks of any run, each active terminal gets the CPU exactly at its turn, whatever happens between the ticks |
| Refinement.ExecuteCases | student-distrib/syscall.c:120-154 | in a reachable state `execute` either refuses or starts the program under the lowest free PID, which is above the three roots |
| Refinement.RefusedEffect | student-distrib/syscall.c:77-142 | what each refusal does to the flags, the directory and the PID table, and to the stack machine |
| Refinement.SimulateRefused | student-distrib/syscall.c:51-142 | every refusal of `execute` leaves all stacks, saved frames and contexts as they were, except that a failed load loses one PID |
| Refinement.LaunchFrames | student-distrib/sys_call.S:57-79 | a launch overwrites no saved frame and no waiting call's slot of any live process |
| Refinement.SimulateExec | student-distrib/syscall.c:120-212 | `execute` is a push on the running terminal's stack, and the counter test `active_proc_num > 3` gives the child its true launcher as parent |
| Refinement.SimulateRestart | student-distrib/syscall.c:21-31 | a root shell that halts is restarted under its own PID and terminal; its PCB names itself as parent if and only if some other program is alive |
| Refinement.OthersAlive | student-distrib/syscall.c:146-154 | the counter exceeds 3 if and only if some process other than the root shells is on a stack |
| Refinement.SimulateReturn | student-distrib/syscall.c:32-48 | `halt` of any other process is a pop and a return into the activation of `execute` that launched it |
| Refinement.SavingKeepsFrames | student-distrib/handlers.S:6-19 | pushing the interrupted registers damages no other saved frame, and no waiting call of the same stack |
| Refinement.EqualPidsSameTerminal | student-distrib/schedule.c:94-97 | the scheduler's two PIDs are equal if and only if it looks at the running terminal, so the early return skips no other terminal |
| Refinement.SwitchOutput | student-distrib/schedule.c:101-118 | the registers or the entry point given to the CPU are those of the process on top of the terminal whose turn it is |
| Refinement.SimulateTick | student-distrib/schedule.c:83-155 | the interrupt entry, `context_switch` and `switch_to_prog` or `execute_root_shell` together are one rotation of the stack machine |
| Refinement.SimulateShow | student-distrib/terminal.c:54-76 | `switch_term` moves no process: stacks, saved frames and the running process stay, and the terminal shown is an active one |
| Refinement.SimulateWork | student-distrib/syscall.c:16-16 | whatever the running process does to its own kernel stack outside these steps, all saved frames and waiting calls of the other processes stay intact |
| Refinement.Simulates | student-distrib/syscall.c:19-213 | every step of the kernel's tables and memory is the same step of the three call stacks, with the same output |
| KernelRuns.BootRepresents | student-distrib/kernel.c:296-376 | after the three `execute` calls of boot there are three root shells with PIDs 0 to 2, the first running and the others deferred |
| KernelRuns.RunsRefine | student-distrib/syscall.c:19-213 | every run of the kernel is a run of the stack machine, output for output |
| KernelRuns.AlwaysSound | student-distrib/syscall.c:147-210 | after boot and any run: the busy PIDs are the disjoint union of the three stacks and the lost ones, `active_proc_num` is their total length and lies in 3..6, CR3 and `terminal[curr_term].pid` name the running process, `tss.esp0` lies in its own 8 KB, and the task list is a three-cycle |
| KernelRuns.KernelTrace | student-distrib/sys_call.S:57-94 | read off the kernel's own outputs from boot: each return gives the status of the halt at that moment to its launcher, and switches resume what was last saved |
| KernelRuns.TotalBounds | student-distrib/syscall.c:120-128 | the three stacks together hold at least 3 processes and, with the lost PIDs, at most 6 |
| KernelRuns.KernelTurns | student-distrib/schedule.c:89-107 | from every reachable state, one of any three ticks of any run comes when the list's head is a given active terminal, and makes it `curr_term` |
| KernelRuns.PidLostExactly | student-distrib/syscall.c:132-142 | over every run of the stack machine, a PID is lost if and only if some program is loaded with result 0 or -1 while a PID is free for it |
| KernelRuns.BusyExactly | student-distrib/syscall.c:120-142 | read off the kernel: after boot and any run as many flags of `pcb_status_array` are set as `active_proc_num` says, if and only if no load of the run delivered nothing while a flag was free |
| KernelRuns.MaskedAfterExecute | student-distrib/syscall.c:57-128 | `execute` leaves IRQ0 masked if and only if the command has a bad length, names no file, cannot be read or is not ELF |
| KernelRuns.MaskedMeansNoSwitch | student-distrib/syscall.c:77-114 | once IRQ0 is left masked, no tick happens and the same process stays current through any run without `execute` or `halt` |
| KernelRuns.LaunchThenHalt | student-distrib/syscall.c:32-48 | whenever a PID is free and the frames fit, a program is launched under the lowest free PID at its entry point, and its `halt(s)` makes exactly the launching call return s at the esp it had |
| KernelRuns.LaunchesInARow | student-distrib/syscall.c:36-39 | after n launches and halts in a row the kernel stores the same stacks, and `tss.esp0` is lower by n times the size of `execute`'s frames |
| KernelRuns.NextLaunchFits | student-distrib/syscall.c:184-212 | after n launches in a row one more fits above the PCB, with everything it writes down to the `iret` frame and below, if and only if n times `toEsp` plus `depth` is within the room there was |
| KernelRuns.SwitchMakesRoom | student-distrib/schedule.c:101-107 | after a context switch, however low `tss.esp0` had sunk before, exactly as many launches in a row fit as into a whole 8 KB stack |
| KernelLaws.ShownIsLast | student-distrib/terminal.c:54-63 | over every run the terminal on the screen is that of the last `switch_term`, or the first one if there was none |
| KernelLaws.KernelActive | student-distrib/terminal.c:63-65 | over every run a terminal takes part in the rotation if and only if it did at the start or has been switched to |
| KernelLaws.KernelMasked | student-distrib/syscall.c:51-213 | after boot and any run IRQ0 is masked if and only if the last `execute` or `halt` was a refusal for a bad length, an unknown name, an unreadable file or a file that is not ELF |
| KernelLaws.ProcessesCounted | student-distrib/syscall.c:19-49 | after boot and any run `active_proc_num` is 3 plus the launches minus the returns |
| KernelLaws.ExecuteRefuses | student-distrib/syscall.c:77-142 | `execute` answers -1 to exactly the four early errors and a load of 0 or -1, and 0 to exactly "clear" and a program for which all six flags are set; all else is a launch |
| KernelLaws.ExecuteLaunches | student-distrib/syscall.c:120-213 | a launch takes the lowest PID whose flag is clear, sets that flag and no other, and makes the program current with the launcher as its parent |
| KernelLaws.Esp0Step | student-distrib/syscall.c:184-187 | the exact `tss.esp0` after each kind of event: the top of the process's own 8 KB after a launch, restart or switch, the launcher's esp after a return, unchanged otherwise |
| KernelLaws.FreshStackFits | student-distrib/syscall.c:184-187 | after a launch, a restart or a switch a frame fits above the PCB if and only if it fits an empty kernel stack |
| ProcessTable.LowestFree | student-distrib/syscall.c:120-122 | the PID found is free and every smaller one is busy; 6 if all are |
| Kernel.Globals.constructor | student-distrib/syscall.c:14-16 | the statically initialised tables, over page tables as `init_paging` leaves them |
| Kernel.Globals.FindFree | student-distrib/syscall.c:120-122 | the loop finds the lowest free PID |
| Kernel.Globals.Load | student-distrib/syscall.c:120-213 | a free PID, and a launch, an abandoned load or a refusal |
| Kernel.Globals.Take | student-distrib/syscall.c:129-136 | the PID is busy and its directory is loaded |
| Kernel.Globals.Abandon | student-distrib/syscall.c:129-142 | a load that failed leaves the PID busy |
| Kernel.Globals.Execute | student-distrib/syscall.c:51-213 | the in-place `execute` takes the kernel to the state, and returns the output, that the refinement theorems are about |
| Kernel.Globals.Claim | student-distrib/syscall.c:129-155 | status, counters, parent and current PID of a new process |
| Kernel.Globals.Prepare | student-distrib/syscall.c:184-203 | kernel stack, text page and CR3 of the process to be entered |
| Kernel.Globals.LeaveFrame | student-distrib/sys_call.S:57-79 | the launcher's esp, the word for its return and the slot of `shell_esp_array` |
| Kernel.Globals.Start | student-distrib/syscall.c:129-213 | deferred, restarted or launched, as the counters say |
| Kernel.Globals.Resume | student-distrib/sys_call.S:81-94 | the parent is current, and control is where its slot points |
| Kernel.Globals.Halt | student-distrib/syscall.c:19-49 | root shells restart, all others return to their parent |
| Kernel.Globals.SaveFrame | student-distrib/handlers.S:6-21 | the frame is on the interrupted process's stack and its PCB points at it |
| Kernel.Globals.Enter | student-distrib/schedule.c:101-109 | the chosen process is current, on its own stack and directory |
| Kernel.Globals.SwitchTo | student-distrib/schedule.c:99-118 | the chosen task becomes current and is started or resumed |
| Kernel.Globals.TimerTick | student-distrib/schedule.c:82-119 | a whole tick, including the two early returns |
| Kernel.Globals.SwitchTerm | student-distrib/terminal.c:54-76 | the shown terminal and the active flag |
| Kernel.Globals.LinkTerminals | student-distrib/schedule.c:57-64 | the loop leaves three inactive tasks in a ring |
| Kernel.Globals.InitSchedule | student-distrib/schedule.c:54-70 | the three-cycle with only terminal 0 active |
| Kernel.Globals.SetUp | student-distrib/kernel.c:297-359 | the scheduler's list and the counters before the first shell |
| Kernel.Globals.ReleaseFirst | student-distrib/kernel.c:368-370 | PID 0 is free again for the third shell |
| Kernel.Globals.Boot | student-distrib/kernel.c:296-376 | the boot sequence ends in the state that represents three root shells |
| Paging.Tables.ClearTables | student-distrib/paging.c:12-20 | every directory and table entry is zero |
| Paging.Tables.MapProcess | student-distrib/paging.c:22-73 | the entries of one process, and no entry of another |
| Paging.Tables.InitPaging | student-distrib/paging.c:8-73 | the nested loops leave exactly the specified directories and tables for all six processes |
| Paging.Tables.ShowOn | student-distrib/syscall.c:197-197 | only the text page of the given process changes |
| Paging.Tables.TranslateExactly | student-distrib/paging.c:22-73 | for every 32-bit address and process, the physical address with the user, write and global permissions, or a fault: nothing else is mapped |
| Paging.Tables.Isolation | student-distrib/paging.c:38-42 | two user addresses reach the same byte only for the same process and address; no kernel or text page reaches a user frame |
| Paging.Tables.GlobalIsShared | student-distrib/paging.c:29-32 | a translation that survives a load of CR3 is the same for every process |
| Paging.Tables.StacksMapped | student-distrib/paging.c:29-32 | the six kernel stacks lie one under the other below 8 MB, and under every process's directory each is at its own physical address, for the kernel only |
| Paging.Tables.ImageFits | student-distrib/syscall.c:129-132 | the address of image byte k is translated to byte 0x48000 + k of the new process's frame if and only if k is below 3899392 |
| Paging.Tables.TextPages | student-distrib/syscall.c:318-323 | 0xB8000 and the `vidmap` address reach the same byte, and two processes share it if and only if they are on one terminal |
| KernelPages.TerminalPages | student-distrib/syscall.c:197-197 | whenever the kernel's globals represent three call stacks, every process on a stack reaches its terminal's page through 0xB8000 and through `vidmap`, and shares it only with its own terminal |
| KernelPages.TextPageOf | student-distrib/syscall.c:197-197 | in a reachable state each process's text page is that of the terminal whose stack it is on |
| KernelPages.ScreenShowsTerminal | student-distrib/terminal.c:58-63 | what the display controller shows after a switch is the text page of the processes on the shown terminal and of no others |
| FileSystem.FileAt | student-distrib/filesystem.c:126-150 | each byte of the joined and truncated blocks lies where block list and offset say |
| FileSystem.RegionsTile | student-distrib/filesystem.c:28-42 | boot block, inodes and data blocks follow each other without gap or overlap and end where the image ends |
| DiskImage.CountsReadBack | student-distrib/filesystem.c:28-42 | an image written by the documented layout has the size its three counts announce, and they read back |
| DiskImage.EntryReadsBack | student-distrib/filesystem.c:56-70 | name, type and inode number of every directory entry read back as written |
| DiskImage.LookupReadsBack | student-distrib/filesystem.c:56-72 | a lookup finds the first entry written under the name's first 32 characters, or nothing if there is none |
| DiskImage.InodeReadsBack | student-distrib/filesystem.c:109-126 | length and block numbers of every inode read back as written |
| DiskImage.BlockReadsBack | student-distrib/filesystem.c:40-40 | every data block reads back as written |
| DiskImage.FileReadsBack | student-distrib/filesystem.c:109-160 | a file's contents are the data blocks its inode names, joined in that order and cut to its length, wherever on the disk they are |
| DiskImage.StoredNeverRejected | student-distrib/filesystem.c:125-128 | a file that leaves one of its 1023 slots unused has no bad slot past its end |
| DiskImage.BadSlotExactly | student-distrib/filesystem.c:125-128 | for a file that fills its last block, the read at its end fails if and only if the next slot holds, as a C int, more than the number of data blocks |
| DiskImage.StoredIsWellFormed | student-distrib/filesystem.c:28-42 | a disk whose regular files are stored on it is an image that all results on reading apply to |
| FileSystem.ReadData | student-distrib/filesystem.c:109-160 | for every offset and length: the count, that slice of the file in the buffer, the rest of the buffer unchanged; -1 only as BadSlotAtEnd says |
| FileSystem.CopyBlocks | student-distrib/filesystem.c:132-156 | the byte loop with its block switches delivers min(wanted, length - offset) bytes of the file |
| FileSystem.SlotChecked | student-distrib/filesystem.c:125-128 | the block number test rejects a well-formed file exactly at the exact end of a file whose next, unused slot is too large |
| FileSystem.CountIsPart | student-distrib/filesystem.c:109-160 | for every way of cutting the file in three, a read at the end of the first part returns the length of the second; beyond the end it returns 0, and exactly at the end -1 if the slot is bad |
| Descriptors.EntryStringIsName | student-distrib/filesystem.c:202-203 | the unbounded `strlen` gives the entry's name if and only if the name is shorter than 32 or the type is 0; it never exceeds 33 |
| Descriptors.Strncmp | student-distrib/lib.c:562-580 | zero if and only if the name, up to its NUL or its 32 bytes, is the string cut at 32 bytes |
| Descriptors.ReadDentryByName | student-distrib/filesystem.c:56-72 | the first entry with that name, or -1 if there is none |
| Descriptors.FreeSlot | student-distrib/syscall.c:250-252 | the slot found is free and all lower ones from 2 on are in use |
| Descriptors.PerformKeepsTable | student-distrib/syscall.c:216-306 | open, read and close keep every descriptor of a regular file on a good inode |
| Descriptors.Table.DoOpen | student-distrib/syscall.c:236-292 | table and result of `open`, including the full table and the unknown name |
| Descriptors.Table.DoClose | student-distrib/syscall.c:293-306 | table and result of `close`, including bad and unused descriptors |
| Descriptors.Table.DoRead | student-distrib/syscall.c:216-224 | table, result and buffer of `read`; other drivers are named |
| Descriptors.Table.FilesystemRead | student-distrib/filesystem.c:178-215 | the position advances by what was delivered; a directory delivers one name, and starts over after the last |
| Descriptors.CopyName | student-distrib/filesystem.c:200-205 | the copied bytes are exactly the string at the entry, and nothing else in the buffer changes |
| Streams.StreamsAreFiles | student-distrib/syscall.c:216-306 | in any interleaving of opens, reads and closes, what each open file has delivered is the beginning of that file up to its position |
| Streams.StopsAtEnd | student-distrib/filesystem.c:184-194 | a read that asks for something delivers nothing if and only if the whole file has been delivered, and is -1 if and only if the slot there is also bad |
| Streams.OthersUntouched | student-distrib/syscall.c:249-306 | no operation disturbs another descriptor, and `open` takes the lowest free slot |
| Streams.CloseExactly | student-distrib/syscall.c:293-306 | closing succeeds if and only if the descriptor is one of 2 to 7 and in use, and then only frees it; otherwise it returns -1 and changes nothing |
| Streams.ReadRefused | student-distrib/syscall.c:216-224 | a read of 1, of a number out of range or of an unused descriptor returns -1 and changes nothing; the terminal and the RTC are handed to their drivers |
| Streams.OpenTakes | student-distrib/syscall.c:236-292 | what `open` writes for each file type, and -1 with no change if and only if the name is unknown or the descriptors 2 to 7 are in use |
| Streams.TerminalStaysOpen | student-distrib/syscall.c:293-306 | over any sequence of opens, reads and closes, descriptors 0 and 1 stay the terminal's |
| Streams.LoadFailsOnlyWhenEmpty | student-distrib/syscall.c:132-142 | loading a program returns 0 or -1 if and only if its file is empty, so the lost PID needs an empty file |
| Streams.OpenEffect | student-distrib/syscall.c:269-274 | an opened regular file starts at position 0 with its own inode |
| Streams.ReadEffect | student-distrib/filesystem.c:185-194 | a read delivers the next bytes of the file, as many as fit or are left |
| Streams.OpenCloseOpen | student-distrib/syscall.c:249-305 | closing undoes opening: every descriptor is used or free as before, and the next open of any file gets the same one |
| Streams.ReadStep | student-distrib/filesystem.c:178-214 | on a descriptor of any of the three file types a read delivers the next part of the contents, and nothing if and only if nothing is left |
| Streams.Cat | syscalls/ece391cat.c:16-30 | for a file of any of the three types the loop terminates and writes exactly its contents; the exit code is 3 if and only if it is a regular file with a bad slot past its end |
| Streams.Ls | syscalls/ece391ls.c:8-29 | the loop terminates and writes the strings at the entries up to the first empty one, one to a line; the byte past its buffer is written if and only if one of them has 33 characters |
| Streams.ListingExactly | student-distrib/filesystem.c:196-212 | a reader of the directory sees exactly its names if and only if no name is empty and none of 32 characters has a type other than 0 |
| Grep.CuttingLosesNothing | syscalls/ece391grep.c:29-57 | the pieces searched report what the lines do for every pattern if and only if no line is longer than 1024 bytes |
| Grep.LongLineDiffers | syscalls/ece391grep.c:22-48 | a file with a longer line has a one-byte pattern, found in the file, on which the output is wrong |
| Grep.FullLine | syscalls/ece391grep.c:22-57 | a line of exactly 1024 bytes is searched whole, and its newline is not taken for a match |
| Grep.LinesJoin | syscalls/ece391grep.c:29-57 | the lines hold no newline, and with a newline after each they are the file, but for one that the file may lack at its end |
| Grep.MatchesContains | syscalls/ece391grep.c:42-51 | a line matches if and only if it is something, the pattern, and something |
| Grep.ReportedLines | syscalls/ece391grep.c:40-57 | taken apart into lines, the output is the name, a colon and the line for each line that contains the pattern, in order |
| Grep.PieceStep | syscalls/ece391grep.c:30-57 | one round of the inner loop takes exactly one piece off what is still to be searched |
| Grep.SameHere | syscalls/ece391support.c:35-46 | the comparison holds if and only if the pattern occurs at that place |
| Grep.SearchLine | syscalls/ece391grep.c:42-51 | a line is reported if and only if the pattern occurs in it |
| Grep.CopyDown | syscalls/ece391grep.c:35-36 | the overlapping copy moves the unfinished line to the front unchanged |
| Grep.Scan | syscalls/ece391grep.c:28-57 | what is printed for a full buffer plus the report of what is kept is the report of everything not yet searched |
| Grep.SearchBuffer | syscalls/ece391grep.c:27-57 | nothing of the file is skipped or searched twice across a refill |
| Grep.Round | syscalls/ece391grep.c:21-59 | one refill and search; -1 exactly at the end of a file with a bad slot there |
| Grep.FirstBuffer | syscalls/ece391grep.c:13-41 | with a stale newline behind the buffer a full buffer is searched to its end, and the newline stays only if the buffer ended with one |
| Grep.ReadMore | syscalls/ece391grep.c:22-27 | the next bytes of the file come behind the carried ones, as many as fit or are left; none from the RTC |
| Grep.SearchFile | syscalls/ece391grep.c:20-60 | the outer loop reports every piece of the file, or stops before an unfinished last line at a bad slot |
| Grep.DoOneFile | syscalls/ece391grep.c:10-66 | for every regular file without NUL bytes, and the RTC, the matching pieces are printed once each and in order, whatever the byte behind the buffer starts as, the loop terminates, and the descriptor is released; with a bad slot at the end only an unfinished last line is missing, and the descriptor stays in use |
| Terminal.EditOneMore | student-distrib/terminal.c:194-266 | the edited line after one more key depends only on the line before it |
| Terminal.TypedIsLine | student-distrib/terminal.c:230-266 | text without Enter and Backspace is the line as it was typed; the 128th character ends the read |
| Terminal.TypedThenEnter | student-distrib/terminal.c:197-206 | typing a text and then Enter ends the read with exactly that text |
| Terminal.BackspaceTakesBack | student-distrib/terminal.c:209-232 | a character and a Backspace, anywhere in a read, leave no trace in the line, and Backspace on an empty line does nothing |
| Terminal.EndedStays | student-distrib/terminal.c:194-194 | once a read has ended no key starts it again, and the line stays exactly unless Ctrl-L empties it |
| Terminal.LineSurvives | student-distrib/terminal.c:332-339 | keys that come after the one that ended the read change what the reader gets if and only if one of them is Ctrl-L and the line was not empty |
| Terminal.EndingKey | student-distrib/terminal.c:197-206 | every read that ends is ended by one of its keys |
| Terminal.ScrollScreen | student-distrib/terminal.c:398-409 | the in-place loops move every row up and clear the last |
| Terminal.EchoShows | student-distrib/terminal.c:230-256 | after an echoed character the cells before the cursor show the longer line, across wraps and scrolls |
| Terminal.EchoExactly | student-distrib/terminal.c:234-249 | an echo leaves the shown terminal's line and the running terminal's own line right on every pair of pages if and only if they are one terminal, or the last row does not wrap, or neither has a line |
| Terminal.ScrollKeepsLine | student-distrib/terminal.c:398-409 | a page that scrolls under its terminal's line keeps showing it on every page if and only if nothing scrolls or there is no line |
| Terminal.EraseShows | student-distrib/terminal.c:209-228 | after a backspace the cells before the cursor show the shorter line and the cursor is on the screen |
| Terminal.EraseUndoesEcho | student-distrib/terminal.c:209-246 | Backspace after a character puts the cursor back where it was, a row higher if the page has scrolled, and leaves 0 in that cell |
| Terminal.KeysWithoutRead | student-distrib/terminal.c:178-196 | without a read only Ctrl-L does anything: it fills the page with spaces and puts the cursor into the corner |
| Terminal.Term.StartRead | student-distrib/terminal.c:118-123 | a read starts with an empty line, shown wherever the cursor is |
| Terminal.Term.FinishRead | student-distrib/terminal.c:128-141 | the caller gets the line, a NUL after it and nothing else |
| Terminal.Kbd | student-distrib/terminal.c:194-266 | the line, the buffer, the page and the cursor of the shown terminal after a key, and the page of the running one |
| Terminal.TextKey | student-distrib/terminal.c:230-266 | an ordinary character is added and echoed, and the read ends when the line is full |
| Terminal.ClearKey | student-distrib/terminal.c:332-339 | Ctrl-L blanks the page, empties the line and ends the read |
| Terminal.NewLine | student-distrib/terminal.c:197-206 | the cursor moves to the next row; at the bottom the running terminal's page scrolls |
| Terminal.EraseKey | student-distrib/terminal.c:209-229 | backspace drops the last character from the buffer and from the screen |
| Terminal.EchoKey | student-distrib/terminal.c:230-256 | an ordinary character is appended to the buffer and echoed |
| Terminal.TerminalRead | student-distrib/terminal.c:114-142 | a whole read under any interleaving of keys, shown and running terminals: the line is what the reader's own keys make of it, the screen shows it as long as every key was harmless, the caller's buffer gets it and a NUL and nothing else |
| Terminal.KeyElsewhere | student-distrib/terminal.c:194-266 | a key for another terminal can spoil a line only by scrolling the page of the running terminal, and that only if the line is not empty |
| Terminal.KeyFor | student-distrib/terminal.c:178-272 | the reader's line, page and cursor after a key for any terminal, with any terminal running |
| Terminal.HarmlessExactly | student-distrib/terminal.c:178-272 | the reader's line stays right on every page under a key if and only if the key is harmless: it does not scroll the wrong page under a line that is not empty |
| Terminal.CursorFollows | student-distrib/terminal.c:194-266 | the cursor is where the page's is, and its count and flag are those of the line |
| Terminal.ScrollsAccount | student-distrib/terminal.c:197-266 | every row a key begins is one the cursor moves down or one the page scrolls |
| Terminal.BufferHoldsLine | student-distrib/terminal.c:194-232 | the 128-byte buffer after a key begins with the line |
| Terminal.ReadFits | student-distrib/terminal.c:128-141 | the copy and its NUL stay within the caller's capacity if and only if the line is shorter than it, and the line is complete if and only if it is shorter than 128 or the capacity is at least 128 |
| Console.PrintShowsLog | student-distrib/lib.c:239-275 | as long as no row wraps at the bottom, the page shows the last 24 rows of everything ever printed, and the cursor leaves the page only by such a wrap |
| Console.BreakingBytes | student-distrib/lib.c:242-255 | bytes 10 and 13 both start a new row and are not stored; every other byte is appended to the row |
| Console.PrintedRows | student-distrib/lib.c:239-280 | the log of what is printed is the text cut into rows at the bytes 10 and 13 and after 80 characters, where a break just after a full row makes an empty one |
| Console.NoBreakInRows | student-distrib/lib.c:239-280 | no row holds a byte 10 or 13 or more than 80 bytes |
| Console.ShownCell | student-distrib/lib.c:256-270 | each cell of the page is the byte of the log at its row and column, or blank behind it |
| Console.TypingPrints | student-distrib/terminal.c:197-246 | on the running terminal's page the echo of a key is what `putc` prints for it, Enter as a newline and a hidden character as a space, with the row number corrected |
| Console.TypingShowsLog | student-distrib/terminal.c:197-265 | so the page after a key shows the log with the key's character, and with a new row after Enter or a full line |
| Console.EraseShowsLog | student-distrib/terminal.c:209-227 | Backspace takes the last character out of the log, across a wrapped row if need be |
| Console.ShortLinesStay | student-distrib/lib.c:240-275 | a text whose lines stay under 80 columns can be printed from any position without leaving the page |
| Console.WrapLeavesPage | student-distrib/lib.c:260-268 | the row number becomes 24 if and only if the last column of the last row is written |
| Console.PutChar | student-distrib/lib.c:240-275 | the in-place `putc` is the specified step of page and cursor |
| Console.CharShows | student-distrib/lib.c:254-268 | after every character the page itself shows the longer log, even after a wrap at the bottom |
| Console.Write | student-distrib/terminal.c:155-170 | for every text: the page shows the log with what was written appended; either that is the whole text and the cursor is on the page, or it ends with the first character that wraps the last row, and the row number is 24 |
| Blink.BlinkPeriod | fish/blink.S:60-86 | for all 16-bit lengths and every t, a node t ticks after its addition is on if and only if t mod (on + off) < on, a length outside 1..0x8000 lasting one tick |
| Blink.PhaseStep | fish/blink.S:64-86 | one tick moves a node to the next position of its period |
| Blink.SyncedStayInStep | fish/blink.S:267-275 | two nodes with the same timing stay in step through any number of ticks |
| Blink.TickedAt | fish/blink.S:58-90 | a pass over the list ticks each node exactly once, at its turn |
| Blink.TickKeepsLinks | fish/blink.S:49-99 | a tick keeps the list acyclic and its nodes at their locations |
| Blink.TickDisplays | fish/blink.S:64-86 | after a tick every cell shows its node's new status, if no two nodes share a cell |
| Blink.PoolFull | fish/fish.c:161-171 | no node is free if and only if all 2000 are in the list |
| Blink.AddExactly | fish/blink.S:159-162 | after an add the nodes are a list whose members are exactly the used ones if and only if the location is not 0 |
| Blink.AddDisplay | fish/blink.S:164-170 | an add on a cell of its own shows at once and disturbs no other cell |
| Blink.RemoveLinked | fish/blink.S:206-223 | bypassing and clearing the node leaves a proper list of the others in their order |
| Blink.RemoveDisplay | fish/blink.S:206-223 | removal leaves every other cell showing its node |
| Blink.SyncDisplay | fish/blink.S:277-285 | after a sync the cell is right if and only if the node is off or its two characters are equal |
| Blink.TimedKeepsLinks | fish/blink.S:267-275 | a sync changes neither the list nor the locations |
| Blink.Pool.FirstFree | fish/fish.c:161-171 | the scan finds the first node with location 0 |
| Blink.Pool.Malloc | fish/fish.c:161-171 | allocation never returns a node of the list and fails only with 2000 nodes in it |
| Blink.Pool.Add | fish/blink.S:105-184 | result, list, pool and screen; the invariant survives if and only if the call fails or the location is not 0 |
| Blink.Pool.Insert | fish/blink.S:147-169 | the node is at the front of the list and shown |
| Blink.Pool.Find | fish/blink.S:351-379 | the walk ends at the first node of the list at the location |
| Blink.Pool.Remove | fish/blink.S:187-237 | exactly the first node at the location leaves the list, the others keep their order and their cells |
| Blink.Pool.Predecessor | fish/blink.S:206-212 | the walk ends at the node whose pointer leads to the one to be removed |
| Blink.Pool.Unlink | fish/blink.S:206-223 | the pointer-to-pointer walk terminates at the node and unlinks only it |
| Blink.Pool.TickAt | fish/blink.S:64-86 | countdown, status and cell of one node |
| Blink.Pool.Tasklet | fish/blink.S:49-99 | a tick reaches every node of the list, in order, and keeps every cell in agreement |
| Blink.Pool.Sync | fish/blink.S:240-300 | the second node takes over the first one's timing, and its off character is drawn |
| BlinkRuns.NodeFollows | fish/blink.S:49-99 | through any sequence of adds, removals, synchronisations and ticks that spare it, a listed node stays in the list and is ticked exactly as often as there are ticks |
| BlinkRuns.AddedNodeBlinks | fish/blink.S:105-184 | an added node shows its on character if and only if the ticks since, modulo its period, are below its first part, whatever else happened to the pool |
| BlinkRuns.SyncedPairStays | fish/blink.S:240-300 | a synchronisation puts two listed nodes in step, each with its own two characters, and they stay so through any operations that spare them |
| BlinkRuns.CharactersStay | fish/blink.S:240-300 | no tick, synchronisation, add or removal elsewhere changes the location or the two characters of a node |
| BlinkRuns.AddAccepted | fish/blink.S:105-184 | an add takes effect if and only if the location is below 2000 and fewer than 2000 nodes are listed; the new node comes first, on, with its whole on phase ahead |
| BlinkRuns.RemovesFirst | fish/blink.S:187-237 | a removal takes out the first node at the location and nothing else, and nothing if there is none |
| BlinkRuns.RemoveView | fish/blink.S:206-223 | bypassing and clearing a node takes exactly it out of the sequence of nodes |
| BlinkRuns.TickView | fish/blink.S:58-90 | a pass over the links ticks every node of the sequence once |
| BlinkRuns.Perform | fish/blink.S:101-103 | every request and tick has its effect on the sequence of nodes, and keeps every cell in agreement if and only if it neither adds where a node is nor draws the wrong character in a sync |
| BlinkRuns.Run | fish/blink.S:49-103 | so has every sequence of requests and ticks |
| BlinkRuns.CellBlinks | fish/blink.S:64-86 | on a pool that shows its nodes the cell of a spared node has the on or the off character as its period says |
| Fish.RowAddsExact | fish/fish.c:101-131 | one row's requests are exactly its positions where not both files are blank, in column order |
| Fish.FrameAddsExact | fish/fish.c:99-148 | the requests of the whole merge are in row-major order, hence once each, and exactly the wanted ones |
| Fish.FrameAddsRead | fish/fish.c:99-148 | a request is made if and only if the two files, read at its row and column with spaces beyond their rows, have its characters there and not both are spaces |
| Fish.RowsJoin | fish/fish.c:99-148 | the rows hold no newline and, separated by newlines, are the file |
| Fish.LocationsProper | fish/fish.c:126-126 | a location is 0 only where the 16-bit value wraps, and locations within 25 rows and 40 columns are distinct |
| Fish.RightHalf | fish/fish.c:126-126 | columns 0 to 39 of a row get the locations 40 to 79 of the screen's row |
| Fish.NextRow | fish/fish.c:133-147 | after a row each stream stands at the beginning of its next row, or has ended |
| Fish.FetchFollows | fish/fish.c:103-117 | a stream delivers the characters of its row, then a newline until the other one has ended |
| Fish.MergeRow | fish/fish.c:100-131 | the inner loop issues the requests of one row and leaves both streams at its end |
| Fish.MergeEnds | fish/fish.c:99-148 | the loops reach the end of both files if and only if neither has a bad slot past its end |
| Fish.AddFrames | fish/fish.c:79-149 | when the merge ends, it has issued exactly the requests of all rows of both files, and its passes are those that MergeEnds counts |
| Memory.MemCpy | student-distrib/lib.c:474-513 | for every alignment and length the destination gets the source's bytes and nothing else changes, if the destination does not lie inside the source above its start |
| Memory.CopyWord | student-distrib/lib.c:491-496 | one word is moved, at an aligned destination, read completely before it is written |
| Memory.FillWord | student-distrib/lib.c:386-391 | one word is set, at an aligned destination |
| Memory.MemSet | student-distrib/lib.c:373-409 | for every alignment and length exactly the n bytes get the low byte of c |
| Memory.MemMove | student-distrib/lib.c:526-546 | for every overlap the destination gets what the source held on entry |
| Numbers.ReversedTwice | student-distrib/lib.c:329-344 | reversal is its own inverse |
| Numbers.DigitTable | student-distrib/lib.c:291-291 | the digits are those of the table 0..9, A..Z |
| Numbers.StrRev | student-distrib/lib.c:329-344 | the exchange loop reverses exactly the string and touches nothing else |
| Numbers.TextMeans | student-distrib/lib.c:287-319 | what `itoa` prints has digits below the radix, no superfluous zero, and reads back as the value |
| Numbers.ValuePrints | student-distrib/lib.c:287-319 | every such numeral is what `itoa` prints for its value |
| Numbers.TextLength | student-distrib/lib.c:306-311 | n places are enough if and only if the value is below radix to the n |
| Numbers.TextFits | student-distrib/lib.c:110-146 | at most 32 places, 10 decimal or 8 hexadecimal ones for a 32-bit value, so the buffers of `printf` are long enough |
| Numbers.Itoa | student-distrib/lib.c:287-319 | the numeral and a NUL are written from the buffer's start, and nothing else changes |
| Numbers.PrintHex8 | student-distrib/lib.c:115-126 | `%#x` prints exactly eight hexadecimal digits that mean the value |
| Numbers.PrintUnsigned | student-distrib/lib.c:108-137 | `%x` and `%u` print the numeral |
| Numbers.PrintSigned | student-distrib/lib.c:140-153 | `%d` prints the sign and the magnitude, for the lowest value too |
| Numbers.Puts | student-distrib/lib.c:192-201 | the characters up to the NUL are handed on, in order |

## Left out

- Interleaving inside a step: each execute, halt, tick and terminal switch is one atomic step. `execute` masks IRQ0 for that; for `halt` it is an assumption.
- The PID search of `execute` stops at 6; in the source it reads on when all six flags are set.
- Overflow of a kernel stack into a PCB: events are enabled only when what they write fits above the PCB (`Enabled`); what happens otherwise is not modelled. For a tick that is the pushed frame; what `context_switch` itself uses below it is not counted.
- Command parsing in `execute` and `getargs`: a step takes the outcome of the parse and of the file lookups (`Request`), so the fixed buffers are not modelled. The file "shell" is a valid, non-empty program.
- `terms[].pid`, the copies of file name and arguments in the PCB, `tss.ss0` and the IRQ8 mask: written but not needed by any property above.
- PCB memory starts zeroed, and the words of other kernel code on its own stack enter as arbitrary writes (`Work`).
- Opening the RTC or a terminal and reading from them: `DoRead` hands such a descriptor to its driver. A slot whose file type is unknown keeps its old operations pointer; calling it is not modelled.
- Descriptors.ReadDentryByName: the source compares once more, beyond the last entry, before it tests the index; that comparison has no effect and is not modelled.
- `write` fails for no valid descriptor here, so the error exits of cat and ls after a failed write are not modelled.
- Grep.DoOneFile: a file with a NUL byte is not covered, because the output then depends on how C strings end inside the buffer; nor is a directory, whose reads ignore the count asked for and so can run past the buffer. `grep`'s own walk over the directory is left out; it passes no name that begins with a dot, so not the directory itself.
- Streams.Cat: a directory entry of a type the kernel does not know is not covered, because its descriptor keeps an old operations pointer.
- Streams.Ls: what the byte past ls's buffer belongs to is not modelled, only that it is written; the entry "." is the directory.
- Terminal.TerminalRead: the other two terminals change by keys only, not by output of their programs; the spinning wait, Ctrl-C and the scancode tables are left out.
- Character attributes, cursor ports and the address arithmetic of video memory: a page is an array of characters.
- Console.Write: what is written after the row number has become 24 lies below the page and is not modelled.
- Fish.AddFrames: the add requests are collected, not sent to the pool, which `Pool.Add` models; the two files are given by their inodes.
- BlinkRuns.Perform: an add at location 0 that succeeds is left to `AddExactly`, which shows that no list fits the pool afterwards.
- Memory.MemCpy: a destination inside the source above its start is not covered; the source promises nothing there.
- Numbers.PrintSigned: `-value` of the lowest value is taken modulo 2^32, as the machine does; C leaves it undefined.
- Interrupt controller, timer, RTC, CR0 and CR4 registers, GDT, IDT, exception handlers, Multiboot, login, signals and the time display: effects outside the modelled state.
- `ece391_strcpy`, `ece391_itoa` and `ece391_strrev` of the user library equal the kernel's versions or are covered where they are used (`CopyDown`).
