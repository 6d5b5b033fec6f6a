# ComputeKERNEL: a verified model

Dafny models of the stateful and arithmetic parts of ComputeKERNEL, with proofs
about every run of them: the process table with its round-robin scheduler and
signals, the cpio initramfs parser and reader, the VGA text writer, the Internet
checksum, and the smaller tables and buffers (file descriptors, physical frames
and the heap mapping, the keyboard ring, rectangle fill).

`dafny verify dfyconfig.toml` checks the whole project.

## How the model is built

- Every section the kernel runs under the process table lock with interrupts off,
  every timer tick and every forced schedule is one atomic step.
  `ProcessTable.dfy` gives each step as a function on the shared state (table,
  current PID, next PID, tick); a run is any sequence of steps. `Kernel.dfy` has
  the same operations in the kernel's imperative form, each proved equal to its
  function, so the theorems on runs hold of that object (`Kernel.Perform`).
- NEXT_PID is a 32-bit counter and wraps. Theorems that need unique PIDs assume
  that the run makes too few forks to wrap it (`NoWrap`); `ForkKeepsOrderIff`
  shows that the assumption is needed.
- The other mutable objects are classes with the kernel's fields. A method says
  what it does by a function of its old state; the VGA writer carries a ghost
  terminal that never forgets a row.
- A Rust panic is an outcome of its own instead of a precondition: a slice out of
  range, and an addition or subtraction that overflows, which the development
  profile checks.
- A *live* state, in the rows below, is one with a sorted table, parents older than
  their children, no blocked process, a living idle and a current process that is in
  the table. Every state reachable from boot in which idle is alive is live
  (`ReachableLive`).

| file | content |
|---|---|
| `ProcessTable.dfy`, `Kernel.dfy` | process table, scheduler and signals: the steps |
| `ProcessOrder.dfy` | sorted table, frame of every step |
| `Calls.dfy` | what `fork`, `execve`, `exit` and `kill` mean for their callers |
| `Zombies.dfy` | zombies are final |
| `Scheduling.dfy`, `RoundRobin.dfy` | parent forest, bounded waiting, the round-robin cycle |
| `Signals.dfy` | delivery of SIGKILL and its deadline |
| `ExitCodes.dfy` | what delivered signals do, when an exit code is final |
| `Orphans.dfy` | no stranded zombie |
| `Rounds.dfy`, `Counterexamples.dfy` | runs of the clock; runs from boot in which a property fails, or the conditions of one are met |
| `Cpio.dfy`, `CpioArchive.dfy` | initramfs parser and reader; reference encoder and round trip |
| `Utf8.dfy` | the names the parser accepts are the UTF-8 encodings |
| `Scrollback.dfy`, `Vga.dfy` | unbounded terminal; the 25 by 80 writer that refines it |
| `Checksum.dfy` | IPv4 header checksum |
| `Descriptors.dfy` | file descriptors and pseudo file reads |
| `Frames.dfy` | boot frame allocator and heap mapping |
| `KeyBuffer.dfy`, `Framebuffer.dfy` | keyboard ring buffer; rectangle fill |

## Properties that turned out false

- *A zombie that is no longer current is never current again* fails for PID 0: once
  idle has exited and been reaped and the table is empty, scheduling stores PID 0
  (`IdleReturns`). A step makes such a PID current if and only if it is 0 and the step
  schedules an empty table (`RescheduledIff`).
- *The exit code of a killed process is final* fails while the process is still
  current: a later terminating signal overwrites it, and so does its own call of `exit`
  (`CodeLost`). A step keeps the code if and only if it does not reap the process and,
  while that is current, is neither an `exit` with another code nor a tick that delivers a
  terminating signal with another code (`CodeKeptIff`, over runs `CodeFinalIff`).
- *Every process has a living parent* fails in three ways: a signal death does not
  reparent (`ChildStranded`), an `exit` of init hands its children to init itself
  (`InitStrandsChild`), and a dead process that is still current can fork
  (`BornStranded`). A step keeps it if and only if the caller of an `exit` has no
  children or is not init and init lives, a process killed by the tick has no children,
  and a fork is by a living process and does not wrap the PID counter (`TendedIff`, over
  runs `TendedRunIff`). A stranded child is never collected (`StrandedForever`).
- *Parents are older than children* fails when idle exits at boot
  (`IdleExitBreaksForest`). An `exit` keeps it if and only if the caller is not idle or
  init is gone (`ForestExitIff`).
- *The table is sorted by PID and below NEXT_PID* fails once the counter wraps, which a
  run of forks, exits and reaps with never more than three processes reaches
  (`PidsWrap`). A fork keeps it so if and only if it fails or the counter is not at its
  last value (`ForkKeepsOrderIff`).
- *No frame is handed out twice* fails for unaligned regions that share a page
  (`UnalignedRepeats`); it holds if and only if usable regions share no page
  (`DistinctIffSeparate`).

## Where the code and its comments differ

The model follows the code.

- `fork` is documented to return 0 to the child; the code only returns to the parent.
- `write_string` is documented to replace non-ASCII bytes; it also replaces control
  characters other than the newline, and 0x7F.

## Model

| member | source | states |
|---|---|---|
| ProcessOrder.OrderedRun | kernel/src/process/mod.rs:100-229 | In every run without PID wrap-around, under any interleaving of all steps, the table stays strictly sorted by PID and below NEXT_PID |
| ProcessOrder.ReachableOrdered | kernel/src/process/mod.rs:75-124 | The same for every state reachable from boot |
| ProcessOrder.ForkKeepsOrderIff | kernel/src/process/mod.rs:110 | A fork keeps that order if and only if it fails or the 32-bit counter is not at its last value |
| Counterexamples.PidsWrap | kernel/src/process/mod.rs:110 | A run from boot of children that are forked, exit and are reaped one after the other: the table is sorted and has two slots when the PIDs run out; the next fork ends the order and the one after it makes a second process with PID 0 |
| ProcessOrder.BaseNameIs | kernel/src/process/mod.rs:136-138 | `execve` names the process by what follows the last slash: a slash-free suffix of the path that is preceded by a slash or is all of it |
| ProcessOrder.Frame | kernel/src/process/mod.rs:100-229 | In a sorted table, a step leaves a process that is not current everything but its parent, which may become init, and adds to its signals at most; or the process is a zombie and the caller gets exactly its PID and exit code |
| Calls.CurrentFrame | kernel/src/process/mod.rs:100-229 | In a sorted table, a step leaves the current process its PID, priority and stack pointer; its name but for `execve`; its parent but for an `exit` of a process that is its own; state and exit code but for `exit` and ticks; its signals in `fork`, `exit`, `waitpid` and scheduling; or reaps it |
| ProcessOrder.GoneStep | kernel/src/process/mod.rs:100-229 | A PID below NEXT_PID that is not in the table does not come back and is not reaped again |
| ProcessOrder.CurrentMoves | kernel/src/process/scheduler.rs:47-75 | The current PID only ever moves to a ready or running process, or to 0 when the table is empty |
| Calls.ForkFailsIff | kernel/src/process/mod.rs:104-107 | `fork` returns no PID, and changes nothing, if and only if the caller is not in the table |
| Calls.ForkReturnsChild | kernel/src/process/mod.rs:109-122 | The PID `fork` returns was not in the table, is in it afterwards, is the only new one and not that of the caller; it is that of a ready process with the name, priority and stack pointer of the caller, whose PID is its parent, without signals or exit code; every other process stays as it is |
| Calls.ForkedChildIsCollected | kernel/src/process/mod.rs:100-229 | Over runs: if the child whose PID `fork` returned exits with a code, and the caller, which does not exit, is current again before anything reaps the child or changes its code, `waitpid` for that PID returns the PID and the code |
| Counterexamples.ForkApplies | kernel/src/process/mod.rs:100-229 | A run from boot that meets all conditions of the previous row |
| Calls.ExecveIs | kernel/src/process/mod.rs:127-142 | `execve` succeeds if and only if the caller is in the table; afterwards the name of that process is the slash-free end of the path behind a slash or from its start, it has no signals, and every other field and slot is unchanged |
| Calls.ExecveEscapes | kernel/src/process/mod.rs:136-139 | Whatever signals the caller has been sent, after an `execve` the next tick leaves its state and exit code alone |
| Calls.ExitIs | kernel/src/process/mod.rs:146-160 | PID by PID: the caller is dead with the code, its children have parent 1, and every other field of every process is unchanged |
| Zombies.ZombieIsFinal | kernel/src/process/mod.rs:145-229 | For every run after a zombie lost the processor: it stays a zombie with the same code and is not scheduled until it is reaped; it is reaped at most once, with exactly that code, and is then gone for good |
| Zombies.ReapedOnce | kernel/src/process/mod.rs:192-229 | No PID is returned twice by `waitpid` in any run |
| Zombies.GoneRun | kernel/src/process/mod.rs:100-229 | In every run, a PID below NEXT_PID that has left the table is never present or reaped again, nor (PID 0 aside) current again once it is not |
| Zombies.RescheduledIff | kernel/src/process/scheduler.rs:47-75 | A step makes a zombie or reaped PID current if and only if it is PID 0 and the step schedules an empty table |
| Zombies.IdleReturns | kernel/src/process/scheduler.rs:55-58 | A run from boot in which idle, a zombie that was not current, becomes current again: init reaps it, is killed, reaps itself, and the schedule of its own `exit` finds the table empty |
| Scheduling.ForestRun | kernel/src/process/mod.rs:100-166 | If PID 0 never calls `exit`, every other process has a parent PID smaller than its own after every run |
| Scheduling.ForestExitIff | kernel/src/process/mod.rs:146-160 | An `exit` keeps parents older than children if and only if the caller is not idle or init is gone |
| Scheduling.IdleExitBreaksForest | kernel/src/process/mod.rs:155-159 | An `exit` of idle at boot makes init its own parent |
| Scheduling.WaitReapsSmallest | kernel/src/process/mod.rs:206-218 | What `waitpid` reaps is a matching zombie child of the caller with its code, and no such child has a smaller PID |
| Scheduling.WaitReapsIff | kernel/src/process/mod.rs:198-221 | `waitpid` reaps if and only if a matching zombie child exists, and reports no child if and only if no matching child exists |
| Scheduling.CurrentNotReaped | kernel/src/process/mod.rs:192-219 | In a live state `waitpid` never takes the current process out of the table |
| Scheduling.LiveStep | kernel/src/process/mod.rs:100-229 | Every step that leaves idle alive keeps the state live |
| Scheduling.ReachableLive | kernel/src/process/mod.rs:75-229 | Every state reachable from boot without PID wrap-around in which idle is alive is live, so the bounds below hold from every such state |
| Scheduling.IdleLivesIff | kernel/src/process/mod.rs:145-229 | Idle lives in every state of a run if and only if it lives in the last one: nothing revives a process |
| Scheduling.RankSchedule | kernel/src/process/scheduler.rs:61-74 | A decision either picks the waiting process or brings it strictly closer on the ring of slots |
| Scheduling.RankTick | kernel/src/process/scheduler.rs:20-26 | So does a tick that ends a time slice, signal delivery included |
| Scheduling.RankWait | kernel/src/process/mod.rs:206-218 | Reaping never puts a waiting process further away |
| Scheduling.RankFork | kernel/src/process/mod.rs:109-121 | A fork puts it further away by at most one |
| Scheduling.WaitingRun | kernel/src/process/scheduler.rs:20-75 | From a live state, as long as idle lives and a waiting process has not run, it stays runnable, and the decisions taken plus its distance at the end are at most its distance at the start plus the forks |
| Scheduling.BoundedWaiting | kernel/src/process/scheduler.rs:20-75 | From a live state, as long as idle lives, under any interleaving, a runnable process that is not current becomes current within n - 1 + f scheduling decisions (n slots at the start, f forks) |
| Scheduling.TicksDecide | kernel/src/process/scheduler.rs:20-26 | Every tenth tick takes a decision, whatever else happens |
| Scheduling.BoundedWaitingInTicks | kernel/src/process/scheduler.rs:20-75 | The same bound on the clock: 10 * (n - 1 + f) ticks |
| RoundRobin.PicksAreRuns | kernel/src/process/scheduler.rs:47-75 | The picks of the next k decisions are the current PIDs of k scheduling steps |
| RoundRobin.PickIs | kernel/src/process/scheduler.rs:61-74 | One decision takes the first runnable slot past the start, going around; a missing current PID starts at slot 0 |
| RoundRobin.RoundIsACycle | kernel/src/process/scheduler.rs:47-75 | On an unchanging sorted table with k > 0 ready or running processes any k consecutive decisions select each exactly once and nothing else, from any current PID, present or not |
| RoundRobin.BoundIsTight | kernel/src/process/scheduler.rs:47-75 | The waiting bound cannot be improved: of k runnable processes the one just behind the current one is not among the next k - 2 picks |
| Signals.KillMarks | kernel/src/process/signal.rs:34-50 | SIGKILL to a runnable process is accepted, leaves it runnable with the signal pending, and leaves every other process and the scheduler variables alone |
| Calls.KillResultIff | kernel/src/process/signal.rs:36-48 | `kill` reports an invalid signal if and only if it is above 31, otherwise a missing process if and only if there is none with that PID, and success in all other cases |
| Calls.KillIs | kernel/src/process/signal.rs:40-46 | A signal that was sent is pending afterwards, every other signal exactly if it was before; no other field or process changes, and signal 0, like a failure, changes nothing |
| Signals.KillStaysPending | kernel/src/process/signal.rs:34-88 | In every run the killed process stays runnable with the signal pending until a tick finds it current, unless it calls `execve` or `exit` |
| Signals.SigkillDelivered | kernel/src/process/signal.rs:53-88 | After any such run the first tick that finds it current makes it a zombie with code 137, whatever else is pending |
| Signals.TicksBeforeHit | kernel/src/process/scheduler.rs:20-26 | As long as no tick finds a killed process current: a bound on the ticks by its distance on the ring, the forks, and one way around the ring for every forced schedule taken while it is current |
| Signals.KillDeadline | kernel/src/process/signal.rs:34-88 | From a live state, in every run of more than 10 * (p + 1) * (n - 1 + f) ticks in which idle lives, a killed process that calls neither `execve` nor `exit` is at some point dead with code 137 (n slots at the start, f forks, p forced schedules taken while it is current); more than 10 * p * (n - 1 + f) ticks suffice if it is current at the start |
| Signals.KillDeadlineByExits | kernel/src/process/mod.rs:145-167 | The same with a bound known to the callers: every forced schedule belongs to an `exit`, so p is at most the exits of the run and those that still owe their schedule at its start |
| Counterexamples.DeadlineApplies | kernel/src/process/scheduler.rs:20-75 | A run from boot that meets all conditions of the deadlines and of bounded waiting, so none of them is empty |
| Counterexamples.PassedOver | kernel/src/process/mod.rs:160-163 | A run from boot, all of whose forced schedules belong to an `exit`, in which one passes the killed init over: init is alive after 30 ticks where 10 * (n - 1 + f) is 20, so the factor is needed |
| ExitCodes.OtherSignalsIgnored | kernel/src/process/signal.rs:67-87 | Sending any signal but KILL, TERM, INT, QUIT never changes what a delivery will do |
| ExitCodes.SignalsAccumulate | kernel/src/process/signal.rs:34-50 | After any sequence of signals sent to a process, a signal is pending if and only if it was before or is among them: order, repetition and invalid signals do not matter |
| ExitCodes.SignalsDelivered | kernel/src/process/signal.rs:34-88 | Signals sent in any order and then delivered: the code is 137 if KILL is among them, otherwise 143 for TERM, 130 for INT, 131 for QUIT; without these four the process keeps its state and code |
| ExitCodes.CodeKeptIff | kernel/src/process/mod.rs:145-229 | For every step: a dead process keeps its exit code if and only if the step does not reap it and, while it is still current, is neither an `exit` with another code nor a tick that delivers a terminating signal with another code |
| ExitCodes.CodeFinalIff | kernel/src/process/mod.rs:145-229 | For every run: a dead process has the same exit code in all its states if and only if no step of the run reaps it or is of these two kinds |
| ExitCodes.LaterSignalOverwrites | kernel/src/process/signal.rs:79-84 | SIGTERM sent to a process that SIGKILL has killed and that is still current turns 137 into 143 |
| Counterexamples.CodeLost | kernel/src/process/mod.rs:150-153 | A run from boot in which a process killed with 137 is still current; a SIGTERM then makes its code 143, and its own `exit(0)` makes it 0 |
| Orphans.TendedRun | kernel/src/process/mod.rs:100-219 | In runs where 0 and 1 do not exit, no signal kills and no zombie forks, every process but idle keeps a present, living parent |
| Orphans.ExitsAreOrderly | kernel/src/process/mod.rs:145-167 | If the only deaths are calls of `exit`, not of 0 or 1, and a process that has called it neither forks nor calls it again, then only living processes fork, whatever comes between an `exit` and its forced schedule |
| Orphans.NoStrandedZombie | kernel/src/process/mod.rs:100-219 | From boot, if the only deaths are such calls of `exit`, every process but idle has a present, living parent after every run |
| Orphans.CollectsNow | kernel/src/process/mod.rs:192-219 | A parent that is current and waits for a zombie child by PID gets that PID and the exit code of the child |
| Orphans.CollectedInTime | kernel/src/process/mod.rs:100-229 | After such a run from boot, the parent of every zombie that is not current is current or runnable; within n - 1 + f further decisions, whatever else happens while idle lives, it is current, and its `waitpid` for the zombie then returns the PID and the code it died with |
| Counterexamples.CollectionApplies | kernel/src/process/mod.rs:145-219 | A run from boot that meets all conditions of the previous row |
| Orphans.ScheduleFindsAlive | kernel/src/process/scheduler.rs:39-75 | With idle alive a decision always leaves a living process current, even from a zombie or a missing one |
| Orphans.TendedIff | kernel/src/process/mod.rs:100-229 | For every step: every process but idle keeps a living parent if and only if the caller of an `exit` has no children, or is not init and init lives; a process killed by the tick has no children; and a fork is by a living process and does not wrap the PID counter |
| Orphans.TendedRunIff | kernel/src/process/mod.rs:100-229 | For every run: every process but idle has a living parent in all its states if and only if every step meets that condition |
| Orphans.StrandedForever | kernel/src/process/mod.rs:192-219 | A process whose parent is gone, or dead and not current, is never collected, in any run |
| Counterexamples.ChildStranded | kernel/src/process/signal.rs:79-84 | A run from boot in which a process with a child is killed by a signal; the child is never collected, whatever happens afterwards |
| Counterexamples.InitStrandsChild | kernel/src/process/mod.rs:155-159 | A run from boot in which init exits and its child is handed to init itself; the child is never collected, whatever happens afterwards |
| Counterexamples.BornStranded | kernel/src/process/mod.rs:100-124 | A run from boot in which a process killed inside its slice forks; the child is never collected, whatever happens afterwards |
| KernelObject.Kernel.constructor | kernel/src/process/mod.rs:75-95 | `init` leaves idle and init, NEXT_PID 2, tick 0 and PID 0 current |
| KernelObject.Kernel.Fork | kernel/src/process/mod.rs:100-124 | `fork` equals its step function: the child inherits name, priority and stack pointer, starts ready without signals, or nothing changes when the current process is missing |
| KernelObject.Kernel.Execve | kernel/src/process/mod.rs:127-142 | `execve` renames the current process and drops its signals, as its step function says |
| KernelObject.Kernel.AdoptChildren | kernel/src/process/mod.rs:155-159 | The loop hands exactly the children of the process to init |
| KernelObject.Kernel.Exit | kernel/src/process/mod.rs:146-160 | The locked section of `exit` equals its step function |
| KernelObject.Kernel.ExitAndSchedule | kernel/src/process/mod.rs:145-167 | The whole of `exit` is that step followed by a scheduling step |
| KernelObject.Kernel.WaitAttempt | kernel/src/process/mod.rs:194-222 | One pass of `waitpid` equals its step function, all three outcomes included |
| KernelObject.Kernel.Kill | kernel/src/process/signal.rs:34-50 | `kill` equals its step function, with invalid signals, missing processes and signal 0 |
| KernelObject.Kernel.DispatchSignals | kernel/src/process/signal.rs:53-88 | Signal delivery equals its step function |
| KernelObject.Kernel.Schedule | kernel/src/process/scheduler.rs:47-75 | The search loop with its modulo index stores the PID the step function gives |
| KernelObject.Kernel.Tick | kernel/src/process/scheduler.rs:20-26 | A tick counts, delivers signals and decides at the end of a slice, as its step function says |
| KernelObject.Kernel.Perform | kernel/src/process/mod.rs:75-229 | Any sequence of operations on the object is the run of the same steps |
| ProcessTable.SlotIsModulo | kernel/src/process/scheduler.rs:69 | The ring position used in the proofs is the kernel's index modulo the table length |
| Cpio.ParseHex8Iff | kernel/src/fs/initramfs.rs:88-91 | A field is a number exactly if it is eight hexadecimal digits or a plus sign and seven, and then fits 32 bits |
| Cpio.PlusIsZero | kernel/src/fs/initramfs.rs:88-91 | A field with a leading plus sign has the value it has with a zero there |
| Cpio.Align4 | kernel/src/fs/initramfs.rs:93-95 | The least multiple of 4 that is not smaller |
| Cpio.ReadHeader | kernel/src/fs/initramfs.rs:41-65 | The branches that read one header give the specified result for any bytes |
| Cpio.HeaderIs | kernel/src/fs/initramfs.rs:40-72 | What a position means, by the bytes there: without room or magic the parse ends; a field that is no number is bad; then a name past the end or the name of the trailer ends it, an empty name panics, one that is not UTF-8 is bad, and any other is a file with these numbers and its data at the next multiple of 4 |
| Utf8.ValidUtf8Iff | kernel/src/fs/initramfs.rs:57 | Names are accepted if and only if they are the UTF-8 encoding (section 3 of RFC 3629) of some sequence of Unicode scalar values |
| Cpio.New | kernel/src/fs/initramfs.rs:35-81 | The cursor loop ends for any bytes with the specified entries, rejection or panic |
| Cpio.ParseIsStructured | kernel/src/fs/initramfs.rs:36-77 | For arbitrary bytes that parse: inode numbers are consecutive from 2, data ranges 4-aligned, in order and disjoint with a header between them, and all but the last inside the archive |
| Cpio.OutcomeOfParse | kernel/src/fs/initramfs.rs:40-77 | For arbitrary bytes the last header looked at decides: a zero name size panics, a bad number or name rejects, and otherwise there is one entry per header before it |
| Cpio.FindPath | kernel/src/fs/initramfs.rs:83-85 | The first entry whose path equals the argument, with or without its leading slashes |
| Cpio.Read | kernel/src/fs/initramfs.rs:120-136 | `read` fills the front of the buffer with the specified bytes and leaves the rest of it alone |
| Cpio.ReadIs | kernel/src/fs/initramfs.rs:120-136 | For any archive, by the first entry with the inode number: a read gives exactly the bytes at the offset that exist and fit; it panics if and only if a position overflows 64 bits or there would be bytes but the entry runs past the archive; nothing is found if and only if there is no such entry |
| CpioArchive.Hex8RoundTrip | kernel/src/fs/initramfs.rs:88-91 | Every 32-bit number is read back from its eight digits, in either case |
| CpioArchive.HeaderOfFile | kernel/src/fs/initramfs.rs:45-74 | At an encoded file the parser sees its name, mode and size and its data where the encoder put it |
| CpioArchive.RoundTrip | kernel/src/fs/initramfs.rs:35-81 | For every list of files within the limits of the format and with UTF-8 names, and any bytes after the trailer, parsing the newc encoding yields one entry per file in order with name, mode, size and inode number, and the recorded range holds the bytes of the file |
| CpioArchive.ReadBack | kernel/src/fs/initramfs.rs:120-136 | Every read of that inode, into any buffer, returns exactly that window of the file, or panics if and only if the start of the read overflows 64 bits |
| CpioArchive.LookupIs | kernel/src/fs/initramfs.rs:83-118 | Looking up any path in the encoding of any list of files, repeated and absolute names included: the first file whose name is the path, with or without its leading slashes, with its inode number, size, low 16 mode bits, and a type by the mask 0xF000 of its mode: 0x4000 a directory, 0xA000 a link, all else a regular file; nothing if and only if there is none; the root for a slash or an empty path |
| CpioArchive.LookupFinds | kernel/src/fs/initramfs.rs:102-118 | With distinct, nonempty, relative names, every file is found under any number of leading slashes, with that number, size, mode and type |
| Scrollback.HistoryKept | kernel/src/drivers/vga.rs:65-98 | Without a clear, no sequence of operations changes a row above the cursor |
| Scrollback.SplitIsExact | kernel/src/drivers/vga.rs:66-78 | Cutting a text at its newlines loses nothing |
| Scrollback.ChunksAreExact | kernel/src/drivers/vga.rs:69-71 | Cutting a line into rows loses nothing; all rows but the last have 80 characters |
| Scrollback.TextIsWrapped | kernel/src/drivers/vga.rs:65-98 | Any text written to a cleared terminal appears as its lines cut into rows of 80, blank elsewhere, with the cursor behind it; a full row wraps only when another character comes |
| Scrollback.EditsShown | kernel/src/drivers/vga.rs:65-163 | Any sequence of bytes and backspaces on a cleared terminal: it shows the rows one gets by adding and taking off characters at their end, blank elsewhere, with the cursor behind them |
| Scrollback.TypedAndErased | kernel/src/drivers/vga.rs:65-163 | Any text, one more character and a backspace show the wrapped text without that character: the text as before, except that a character that wrapped leaves the cursor on the new empty row |
| Scrollback.BackspaceIs | kernel/src/drivers/vga.rs:156-163 | On any terminal a backspace blanks the cell before the cursor in the current colour and moves there, and changes no other cell; at column 0 it changes nothing |
| Scrollback.ColoredWrite | kernel/src/drivers/vga.rs:65-168 | On any terminal a character written after a colour change stands before the cursor in that colour, rows it adds are blank in it, and no other cell changes |
| Vga.Writer.constructor | kernel/src/drivers/vga.rs:179-188 | `init` leaves a cleared white-on-black grid with the cursor at the top left |
| Vga.Writer.Scroll | kernel/src/drivers/vga.rs:100-111 | The in-place loops move every row up by one and blank the last one |
| Vga.Writer.DoNewLine | kernel/src/drivers/vga.rs:90-97 | A new line keeps the grid equal to the last 25 rows of the unbounded terminal |
| Vga.Writer.WriteByte | kernel/src/drivers/vga.rs:65-78 | So does a byte, with its deferred wrap; row stays at most 24, column at most 80, every write in bounds |
| Vga.Writer.Backspace | kernel/src/drivers/vga.rs:156-163 | So does a backspace |
| Vga.Writer.SetColor | kernel/src/drivers/vga.rs:166-168 | A colour change concerns only later writes |
| Vga.Writer.Clear | kernel/src/drivers/vga.rs:145-153 | The loops blank the grid in the current colour and the terminal starts afresh |
| Vga.Writer.WriteString | kernel/src/drivers/vga.rs:81-88 | A string is written byte by byte, everything but printable ASCII and newline as 0xFE |
| Vga.Writer.Perform | kernel/src/drivers/vga.rs:65-168 | After any sequence of byte writes, colour changes, backspaces and clears the grid, characters and colours, is the last 25 rows of the terminal that saw them all |
| Vga.ShowText | kernel/src/drivers/vga.rs:81-153 | After a clear and a string the grid shows the last 25 rows of the wrapped text, and the cursor stands behind it |
| Vga.ShowEdits | kernel/src/drivers/vga.rs:65-163 | After a clear and any bytes and backspaces the grid shows the last 25 of the edited rows, and the cursor stands behind them |
| Vga.PrintableAllIs | kernel/src/drivers/vga.rs:81-88 | Of a string, exactly the bytes other than newline below 0x20 or above 0x7E are shown as 0xFE, all others as they are |
| Checksum.Compute | kernel/src/net/ip.rs:47-61 | The two loops return the complement of the ones' complement sum of the words, or overflow exactly when the plain sum needs more than 32 bits; the folding loop ends |
| Checksum.FoldKeeps | kernel/src/net/ip.rs:57-59 | Adding the carries back keeps the ones' complement value and shrinks the sum |
| Checksum.OverflowBound | kernel/src/net/ip.rs:48-56 | No input of n bytes overflows the 32-bit sum if and only if n is at most 131074 |
| Checksum.ZeroIff | kernel/src/net/ip.rs:47-61 | A header checks out if and only if its words add up to a positive multiple of 0xFFFF |
| Checksum.StoredVerifies | kernel/src/net/ip.rs:47-61 | Storing the checksum in its zeroed aligned field makes the checksum of the result 0, for even and odd lengths; up to 131074 bytes neither computation overflows |
| Checksum.WordErrorDetected | kernel/src/net/ip.rs:47-61 | Replacing one aligned word of a valid header by another goes unnoticed if and only if it swaps 0x0000 and 0xFFFF and the changed header is not all zero |
| Checksum.WordOrderIrrelevant | kernel/src/net/ip.rs:49-56 | Permuting the 16-bit words changes neither the checksum nor whether the sum overflows |
| Checksum.ByteSwap | kernel/src/net/ip.rs:49-60 | For even lengths, swapping the bytes of every word swaps the bytes of the checksum; up to 131074 bytes neither sum overflows |
| Descriptors.OpenRefines | kernel/src/syscall/mod.rs:258-301 | A successful open binds the lowest descriptor from 3 on that is unused and touches no other; a failing one changes nothing |
| Descriptors.OpenFailsIff | kernel/src/syscall/mod.rs:258-289 | An open fails if and only if the path is unreadable or not one of eight, or a write to one of the four read-only files is asked for; each of these has its own error |
| Descriptors.CloseRefines | kernel/src/syscall/mod.rs:303-316 | A close unbinds its descriptor only and says whether it was bound; 0 to 2 are accepted silently |
| Descriptors.SequentialReads | kernel/src/syscall/mod.rs:174-216 | Under any interleaving of opens, closes and reads, what an open fixed-content descriptor has returned since its open is its content up to the stored offset |
| Descriptors.ReadIs | kernel/src/syscall/mod.rs:174-216 | A read of an open fixed-content descriptor returns all that is left of the content and fits, from its offset on, advances the offset by that, and changes no other descriptor |
| Descriptors.ReadsComplete | kernel/src/syscall/mod.rs:174-216 | Under any interleaving, what such a descriptor has returned since its open is exactly the first bytes of the content, as many as its reads have offered room for, and the whole content once that is enough |
| Descriptors.OpenThenRead | kernel/src/syscall/mod.rs:182-301 | What opening each of the eight paths and reading returns: the front of its text, nothing for /dev/null and /dev/ttyS0, zeros for /dev/zero and /dev/full |
| Descriptors.LengthIsMaxOpen | kernel/src/syscall/mod.rs:291-316 | The table is always exactly as long as the most descriptors ever open at once |
| Descriptors.FdTable.SysOpen | kernel/src/syscall/mod.rs:258-301 | The slot loop of `sys_open` equals its function |
| Descriptors.FdTable.SysClose | kernel/src/syscall/mod.rs:303-316 | `sys_close` equals its function |
| Descriptors.FdTable.CopyStatic | kernel/src/syscall/mod.rs:207-216 | `read_static` copies what is left of the content, cut to the buffer, to its front |
| Descriptors.LineIs | kernel/src/syscall/mod.rs:160-171 | What descriptor 0 takes behind the first key: the longest run of keys that fits the buffer and has a line end, if any, only at its end |
| Descriptors.KeysAre | kernel/src/syscall/mod.rs:143-172 | A read of descriptor 0 waits as long as there is nothing, is interrupted if the reader is dead before a key comes, and otherwise gives that key and the line behind it |
| Descriptors.FirstKeyContinues | kernel/src/syscall/mod.rs:150-156 | A line end that ends the wait does not end the read: if there is room, keys queued behind it are taken too |
| Descriptors.FdTable.ReadKeyboard | kernel/src/syscall/mod.rs:143-172 | Both loops: interrupted if the reader is dead before a key comes, waiting as long as none does, otherwise the first key and the rest of the line at the front of the buffer |
| Descriptors.FdTable.SysRead | kernel/src/syscall/mod.rs:133-205 | `sys_read` on any descriptor: it advances the stored offset by what it copied to the front of the buffer and touches no other descriptor; or reads the keyboard; or changes nothing for an empty or null buffer, a bad descriptor or an underflow (1 and 2) |
| Descriptors.FdTable.Perform | kernel/src/syscall/mod.rs:133-316 | Any sequence of calls on the table is the run of the same operations; what a fixed-content descriptor has returned since it was opened is as much of the content as its reads offered room for, and the table is as long as the most descriptors ever open at once |
| Frames.RegionFramesAre | kernel/src/memory/frame_allocator.rs:29-36 | The frames of a region are consecutive pages from that of its start on, in closed form |
| Frames.RegionFramesByAddress | kernel/src/memory/frame_allocator.rs:33-35 | A region has an i-th frame if and only if the address i pages past its start is in it, and the frame is the page of that address |
| Frames.UsableFramesAre | kernel/src/memory/frame_allocator.rs:29-36 | A frame is produced if and only if some usable region spans its page |
| Frames.FramesInOrder | kernel/src/memory/frame_allocator.rs:29-36 | The frames of a region come after those of the regions before it and before those of the regions after it |
| Frames.DistinctIffSeparate | kernel/src/memory/frame_allocator.rs:29-44 | No frame is handed out twice if and only if no two usable regions share a page |
| Frames.EveryFrameOnce | kernel/src/memory/frame_allocator.rs:29-44 | For page-aligned disjoint regions successive calls hand out every usable frame exactly once and then none for ever |
| Frames.UnalignedRepeats | kernel/src/memory/frame_allocator.rs:33-35 | Two disjoint regions inside one page give its frame twice |
| Frames.FrameAllocator.AllocateFrame | kernel/src/memory/frame_allocator.rs:40-44 | The n-th call returns the n-th usable frame, and the counter advances even past the end |
| Frames.FeasibleIff | kernel/src/memory/heap.rs:29-36 | The mapping can succeed if and only if no page is refused and there are frames for all pages and page tables |
| Frames.HeapPagesAre | kernel/src/memory/mod.rs:22-24 | The heap is the 512 pages that hold the addresses from 0x444444440000 up to two mebibytes later |
| Frames.InitHeap | kernel/src/memory/heap.rs:15-39 | `init_heap` succeeds exactly then, and leaves every heap page mapped to a usable frame of its own that no page table got; mappings outside the heap never change, on failure either |
| KeyBuffer.FirstInFirstOut | kernel/src/drivers/keyboard.rs:31-47 | Under any interleaving, bytes popped followed by bytes queued are the accepted pushes in order |
| KeyBuffer.Ring.Push | kernel/src/drivers/keyboard.rs:31-37 | A push appends, or is dropped exactly when 256 bytes are queued |
| KeyBuffer.Ring.Pop | kernel/src/drivers/keyboard.rs:39-47 | A pop takes the oldest byte, or none from an empty ring |
| KeyBuffer.Ring.Drive | kernel/src/drivers/keyboard.rs:26-48 | Any sequence of pushes and pops on the ring behaves as the bounded queue |
| Framebuffer.ByteOfPixel | kernel/src/drivers/framebuffer.rs:37-39 | A byte has the column and row of a pixel exactly when it lies in the range of that pixel in the buffer |
| Framebuffer.Driver.PutPixel | kernel/src/drivers/framebuffer.rs:36-60 | For any frame buffer description: writes the channels of one pixel that lies in the buffer by its size, and nothing else; panics if and only if its channels do not lie in the buffer |
| Framebuffer.Driver.FillRect | kernel/src/drivers/framebuffer.rs:27-33 | The two loops put the pixels of the clipped rectangle row by row, up to the first that panics, for any frame buffer description |
| Framebuffer.FillPanicsIff | kernel/src/drivers/framebuffer.rs:27-60 | A fill panics if and only if a pixel of the clipped rectangle lies in the buffer by its size but its channels do not |
| Framebuffer.FillIsExact | kernel/src/drivers/framebuffer.rs:27-60 | With room for the channels in a pixel, and any stride, a fill does not panic, gives exactly the bytes of the pixels in the rectangle, on the screen and in the buffer their channel values, and leaves every other byte alone |
| Framebuffer.FilledPixel | kernel/src/drivers/framebuffer.rs:43-59 | The bytes of a filled pixel: red, green and blue, or the reverse, or the rounded down mean, by format; its other bytes are left alone |
| Framebuffer.TargetIsOwnPixel | kernel/src/drivers/framebuffer.rs:27-39 | If rows do not overlap, those are the bytes whose own column and row are in the rectangle |

## Left out

- The `hlt` loop of `waitpid`: one locked pass is modelled, the waiting between passes is any other steps.
- TICK as a 64-bit number: it is unbounded here.
- Kernel stack pointers are carried along but no context is switched, as in the kernel.
- What the keyboard offers a read of descriptor 0, turn by turn, and whether the reader is dead meanwhile: parameters of the read.
- `/proc/uptime` in the sequential-read property: its content changes between reads, so it is a parameter of each read.
- `readdir`, `write`, `create` and `unlink` of the initramfs: a prefix match without separator, and constant errors.
- 64-bit `usize` limits in the cpio cursor and in framebuffer and frame indices: positions are unbounded; only the explicit 64-bit additions of `read` are checked.
- `align4` is written with division instead of bit operations; the file type, too, but it is proved equal to the mask.
- Frames.InitHeap: `map_to` of the paging crate is modelled by how many page tables it draws for each page and whether it refuses; flags and TLB flushes are not modelled.
- The check of `PhysAddr::new` on addresses of 2^52 and above.
- User pointers, UTF-8 decoding of user strings, spin locks and interrupt masking: strings, options and atomic steps. The forced schedule takes the lock with interrupts on; a timer interrupt inside it is not modelled.
- `sys_write`, `sys_getppid`, `sys_wait4` status packing and the dispatch table: one-branch forwarding.
- Header parsing and serialising of IPv4, TCP, UDP and Ethernet: straight-line field extraction.
- GDT, IDT, PIC, serial port, ACPI, PCI, storage, network, audio, USB and Bluetooth drivers: hardware access or stubs.
- The shell, keyboard decoding, and the /proc, /sys and /dev filesystem objects: user interface and constant tables.
