# Verification of the harness's bytecode, checkers and controllers

This project models, in Dafny, the parts of the repository whose correctness is not visible
from one call, and proves properties of them for all inputs:

- the eBPF programs of `bpf_prog01.c`, `bpf_prog02.c` and `bpf_prog05.c`, run by an interpreter
  that follows sections 4.1, 4.3 and 5.4 of RFC 9669 (`BpfMachine`, `BpfPrograms`, `BpfTests`);
- the loop of `fanotify01.c` and `fanotify02.c` that checks merged events (`Fanotify`);
- the scatter/gather test of `process_vm_readv03.c` (`ScatterGather`);
- the range operations of `fallocate04.c` on a file of bytes and blocks (`Fallocate`);
- the short-copy loop and the checkers of `copy_file_range01.c` (`CopyRange`);
- shared and private descriptor tables in `close_range01.c` (`CloseRange`), and the exhaustion
  of a table in `dup06.c` and `dup205.c` (`DupTables`);
- the source transformer `modify.py` (`ModifyC`);
- the two semaphore players of `eventfd2_03.c` (`Semaphore`);
- the pollers, the mutation listener and the monitor on the switch file (`Control`);
- the flag and record walkers of `fanotify.h` (`Walkers`) and the quota arithmetic of
  `add_key05.c` (`KeyQuota`).

The kernel appears as a contract: a call that may choose (how much to copy, whether to refuse,
who runs next) is nondeterministic or an input, and what is proved holds for every choice; where
a test is there to catch a kernel that goes wrong, its verdict is exact for such a kernel too. Code that changes
things in place is a class or a method over arrays, proved against a function of the old state;
the lemmas are about those functions.

## What the proofs brought out

Where the code does not do what its test expects in every situation, the exact condition is proved
and an input that fails is given.

- `close_range01.c`: setup accepts a descriptor limit of exactly 1000, but then `dup2(fd, 1000)` is
  refused (`CloseRange.LimitTooLow`). In the test's own order, where each case closes everything
  above the standard descriptors, the four cases all pass exactly when the limit is above 1000 and
  0, 1 and 2 are open (`CloseRange.Test.RunCases`). A single case on an arbitrary table also depends
  on descriptor 42; `CloseRange.Meets` is the condition for each.
- `fallocate04.c`: a round leaves the file position at the end and its zeros in the file, so a
  second round on the same file breaks off in its second case (`Fallocate.Test.Repeat`, for every
  block size); `Fallocate.Test.Test02` says on which files that case passes.
- `dup06.c`: a free descriptor 0 is taken and never closed, so with 0 free the first run passes
  and no later one does (`DupTables.Dup06.Repeat`; `DupTables.EmptyTableTwice`). `dup205.c` closes
  every descriptor above the first one it got, whoever had opened it (`DupTables.Dup205.Run`).
- `fanotify01.c`, `fanotify02.c`: the loop ends inside `event_set` exactly when the expected bits can
  be cut into segments that contain the events' masks (`Fanotify.StaysInside`); one bit that is
  never expected is enough to make it read behind the set (`Fanotify.UnexpectedBit`,
  `Fanotify.AttribReadsBehind`).
- `copy_file_range01.c`: the loop never ends on a range that reaches past the end of the source
  (`CopyRange.EndsIffInside`), which the test never asks for: `CopyRange.InsideSource`. The content
  check compares one character even for length 0 (`CopyRange.EmptyRangeMismatch`).
- `modify.py`: a prototype, or a signature with its brace on the same line, before a line with
  balanced braces gets the end marker there and no start marker (`ModifyC.BalancedNextLine`,
  `ModifyC.PrototypeTakesTheEnd`); `ModifyC.BracketedIff` says exactly when a function is bracketed
  and no other marker is written.
- `mutation.py`: acknowledging "done" detaches nothing. The probes are gone whenever the flag is
  clear exactly if no contents asked for any, or if the last request is still unacknowledged
  (`Control.ProbesOutliveTheFlag`, `Control.DoneDetachesNothing`).
- `fanotify.h`: `get_event_info` does not look at a last record of exactly a header's length
  (`Walkers.MissedIff`, `Walkers.HeaderOnlyMissed`). The kernel emits no information record that is
  nothing but a header, so this does not show.

Comments that disagree with the code: `bpf_prog02.c:54` speaks of 2^61 where `A64INT` is 2^60, and
`bpf_prog05.c:115-116` and `130-131` number the map cells from 1 where the code stores to 0..3. The
model follows the code.

## Modules

`Basics` and `Text` hold what several modules share. `BpfPrograms` builds on `BpfMachine`, and
`BpfTests` on both; all other modules stand alone. Proofs use `hide` to keep the solver's view
small; nothing is assumed.

## Model

| member | source | states |
|---|---|---|
| BpfMachine.HaltsWithinSlots | process-based/syscalls/bpf/bpf_prog02.c:44-71 | every program whose jumps go forward onto instruction starts stops within its slot count from any state, and never because the program counter went astray |
| BpfMachine.Wide | process-based/syscalls/bpf/bpf_prog02.c:56-69 | 64-bit addition and subtraction wrap around at 2^64, division and modulo belong together, and by 0 they give 0 and the dividend |
| BpfMachine.Narrow | process-based/syscalls/bpf/bpf_prog05.c:105-139 | the 32-bit class does the same on the low halves and leaves nothing above them |
| BpfMachine.TwosComplement | process-based/syscalls/bpf/bpf_prog05.c:66-76 | the signed value of a sign-extended immediate is the immediate |
| BpfPrograms.ArrayStxStores | process-based/syscalls/bpf/bpf_common.h:32-40 | anywhere in any program the expansion stores the register in the named cell, changes no other cell of any map, keeps r6..r10 and arrives behind itself; out of range it exits with 0 and the maps unchanged |
| BpfPrograms.Prog01Forward | process-based/syscalls/bpf/bpf_prog01.c:54-70 | the program is forward and its offset 3 lands on the exit |
| BpfPrograms.Prog02Forward | process-based/syscalls/bpf/bpf_prog02.c:44-71 | the program is forward, has 27 slots, and its offsets 17 and 5 both land on slot 25 |
| BpfPrograms.Prog05Forward | process-based/syscalls/bpf/bpf_prog05.c:105-139 | the program is forward and has 46 slots |
| BpfPrograms.Prog01Leaves | process-based/syscalls/bpf/bpf_prog01.c:54-70 | from any registers, stack and maps it exits with 0 and leaves 1 in cell 0 if there is one, all else as it was |
| BpfPrograms.Prog02AnyWord | process-based/syscalls/bpf/bpf_prog02.c:46-67 | behind its first instruction, for any 64-bit a and any 64-bit word w in r6, it exits with 0 and leaves a + w and a - w modulo 2^64 in cells 0 and 1 as far as they exist, all else as it was |
| BpfPrograms.Prog02Leaves | process-based/syscalls/bpf/bpf_prog02.c:44-71 | so with the immediate k loaded into r6 it leaves a + k and a - k, from any registers, stack and maps |
| BpfPrograms.Prog05Leaves | process-based/syscalls/bpf/bpf_prog05.c:105-139 | it exits with 0 and leaves 2^32, 0, 2^32 and 2^32 - 1 in cells 0..3 as far as they exist, all else as it was: 32-bit division by a register with a zero low half |
| BpfPrograms.PtrProbeRuns | process-based/syscalls/bpf/bpf_prog05.c:66-80 | a fact about the bytecode, which the test only loads: adding a negative word to the frame pointer would clear the byte just below the frame, and the program would exit with 0 |
| BpfTests.Vm.Execute | process-based/syscalls/bpf/bpf_common.c:130-143 | the machine that overwrites registers, stack and maps in place ends where the meaning of the program says |
| BpfTests.ProgAttr.Init | process-based/syscalls/bpf/bpf_common.c:82-106 | the program handed to the kernel is the one given, whatever the reused buffer held; the buffer is replaced only when too small |
| BpfTests.Test.ExpectRegVal | process-based/syscalls/bpf/bpf_prog05.c:146-160 | reports whether the cell named by the key is the expected one and moves the key on |
| BpfTests.Test.EnsurePtrArithmetic | process-based/syscalls/bpf/bpf_prog05.c:64-92 | the probe is handed to the kernel and not run; a refusal ends the test |
| BpfTests.Test.LoadAndRun | process-based/syscalls/bpf/bpf_common.c:108-143 | depending on the kernel: it refuses and nothing changes, what runs is what was handed over, on a machine of which only the frame pointer is known, or it goes wrong and leaves what it leaves |
| BpfTests.Test.Run01 | process-based/syscalls/bpf/bpf_prog01.c:83-107 | the verdict compares cell 0 with 1 whatever the kernel left there, and a kernel that runs the program leaves 1 |
| BpfTests.Test.Run02 | process-based/syscalls/bpf/bpf_prog02.c:83-115 | likewise for 2^60 + 1 and 2^60 - 1, given as numbers |
| BpfTests.Test.Run05 | process-based/syscalls/bpf/bpf_prog05.c:168-192 | likewise for 2^32, 0, 2^32 and 2^32 - 1; with a kernel that runs the program cells 4..7 stay 0 and no other map changes |
| Fanotify.CheckerMatchesSplits | process-based/syscalls/fanotify/fanotify01.c:255-331 | no mask failure exactly when the expected bits split into consecutive segments, one per event, of distinct bits that make up its mask; then one iteration per expected bit |
| Fanotify.CheckerPasses | process-based/syscalls/fanotify/fanotify01.c:259-308 | every verdict is a pass exactly when, besides, each event names the test's process and, under fanotify01, its descriptor is -2, is -1 where that is allowed, or reads as the file |
| Fanotify.WrongContentFails | process-based/syscalls/fanotify/fanotify01.c:277-295 | a descriptor that reads short or reads something else keeps the checker from passing, wherever its event stands |
| Fanotify.VerdictSays | process-based/syscalls/fanotify/fanotify01.c:259-308 | what is reported about the event the loop is at: not expected at all, wrong mask, wrong process, unreadable, wrong data, or good |
| Fanotify.ClosesEachOnce | process-based/syscalls/fanotify/fanotify02.c:165-171 | a checker that gets through its buffer closes each descriptor once and in order, whatever the verdicts |
| Fanotify.BehindTheSet | process-based/syscalls/fanotify/fanotify01.c:259-264 | behind the expected bits the loop ends inside the event set exactly when no event has a bit left and few enough remain |
| Fanotify.StaysInside | process-based/syscalls/fanotify/fanotify01.c:315-325 | for any entries at all, the loop ends inside the event set exactly when the entries ahead can be cut into consecutive non-empty segments, one per event, that contain the events' masks; otherwise it runs off the end |
| Fanotify.UnexpectedBit | process-based/syscalls/fanotify/fanotify01.c:255-325 | an event with a bit that no entry has sends the loop behind the event set |
| Fanotify.AttribReadsBehind | process-based/syscalls/fanotify/fanotify01.c:255-325 | for instance one event that carries FAN_ATTRIB besides FAN_OPEN |
| Fanotify.RepeatsNeedEvents | process-based/syscalls/fanotify/fanotify01.c:133-141 | a sequence with k successive repeats of a bit needs more than k events, and no more than it has bits |
| Fanotify.Fanotify01Events | process-based/syscalls/fanotify/fanotify01.c:121-243 | without mask failure between four and twelve events came |
| Fanotify.Fanotify02Events | process-based/syscalls/fanotify/fanotify02.c:58-123 | without mask failure between three and eight events came |
| Fanotify.CheckEvents | process-based/syscalls/fanotify/fanotify01.c:252-325 | the loop over the buffer, walking by byte lengths and clearing masks in place, has the trace of the reference walk, and on ending leaves every mask empty |
| Fanotify.ReportMissing | process-based/syscalls/fanotify/fanotify01.c:327-331 | counts the expected bits that never came |
| Fanotify.VerifyEvents | process-based/syscalls/fanotify/fanotify02.c:134-178 | the whole check passes exactly on the buffers the reference describes, each event naming the process and with a descriptor that reads as the file, and then has closed every descriptor once |
| ScatterGather.SizesPartition | process-based/syscalls/cma/process_vm_readv03.c:54-66 | for any draws the sizes are non-negative, sum to the buffer size, and each but the last takes at most half of what is left |
| ScatterGather.SizesDrawn | process-based/syscalls/cma/process_vm_readv03.c:54-66 | each size but the last is its draw modulo one more than half of what the earlier ones left |
| ScatterGather.CreateDataSize | process-based/syscalls/cma/process_vm_readv03.c:54-66 | fills the array with the sizes the draws determine |
| ScatterGather.FillChunk | process-based/syscalls/cma/process_vm_readv03.c:75-80 | a chunk of the wanted size whose byte k is base + k modulo 256, none for size 0 |
| ScatterGather.ChildAlloc | process-based/syscalls/cma/process_vm_readv03.c:68-81 | chunks of the given sizes, distinct, and byte k of them laid end to end is k modulo 256 |
| ScatterGather.ProcessVmReadv | process-based/syscalls/cma/process_vm_readv03.c:112-114 | the remote bytes laid end to end replace the local ones in order, as far as both reach and the kernel is willing to go, and nothing else changes |
| ScatterGather.NoErrors | process-based/syscalls/cma/process_vm_readv03.c:121-132 | no error is counted exactly when byte k is start + k modulo 256 for every k |
| ScatterGather.CountErrors | process-based/syscalls/cma/process_vm_readv03.c:121-132 | counts exactly the positions k whose byte is not k modulo 256 |
| ScatterGather.ChildRead | process-based/syscalls/cma/process_vm_readv03.c:88-138 | reports a short transfer, the number of wrong bytes, or success exactly when every byte asked for is its position modulo 256, whatever the partition it draws |
| ScatterGather.RunTest | process-based/syscalls/cma/process_vm_readv03.c:154-190 | for any buffer size, two independent chunk counts and any draws every byte is found correct, unless the kernel cuts the transfer short, which is reported |
| Fallocate.AnyOperations | process-based/syscalls/fallocate/fallocate04.c:42-260 | after any sequence of these calls on an empty file, holes read as zeros and the allocated size lies between the non-zero data and the size rounded up to a block |
| Fallocate.InsertThenCollapse | process-based/syscalls/fallocate/fallocate04.c:184-260 | collapsing the range just inserted gives back bytes and allocation, for any aligned range of any file |
| Fallocate.CollapseThenInsert | process-based/syscalls/fallocate/fallocate04.c:184-260 | inserting where a range was collapsed gives back the file exactly when no block of the range was allocated |
| Fallocate.PunchedComesBack | process-based/syscalls/fallocate/fallocate04.c:99-260 | so a hole punched over whole blocks can be collapsed and inserted again without a trace |
| Fallocate.ExpectedAfterCollapse | process-based/syscalls/fallocate/fallocate04.c:208-218 | the buffer copied together in test04 is what collapsing the zeroed file leaves, for every block size |
| Fallocate.Test.FillTstBuf | process-based/syscalls/fallocate/fallocate04.c:53-60 | a letter per block |
| Fallocate.Test.CheckFileData | process-based/syscalls/fallocate/fallocate04.c:62-78 | true exactly when the file starts with the expected bytes |
| Fallocate.Test.Test01 | process-based/syscalls/fallocate/fallocate04.c:80-97 | passes on any file at any position; on a fresh one it leaves three allocated blocks of letters |
| Fallocate.Test.Test02 | process-based/syscalls/fallocate/fallocate04.c:99-145 | passes on a file exactly when its first and third block hold their letters and its second is allocated; behind test01 it leaves the hole |
| Fallocate.Test.Test03 | process-based/syscalls/fallocate/fallocate04.c:147-182 | passes on a file exactly when the letters beside the range are there and one of the three blocks it touches is not allocated; behind test02 it allocates that one |
| Fallocate.Test.Test04 | process-based/syscalls/fallocate/fallocate04.c:184-222 | passes on a file exactly when the blocks around the second hold what test03 leaves and the second is allocated; behind test03 that one goes |
| Fallocate.Test.Test05 | process-based/syscalls/fallocate/fallocate04.c:224-260 | passes on a file exactly when its first two blocks hold what test04 leaves; behind test04 one block comes |
| Fallocate.Test.RunAll | process-based/syscalls/fallocate/fallocate04.c:262-271 | for every block size all five cases pass in sequence on a fresh file; on a file a round has left, the second case breaks off on wrong data |
| Fallocate.Test.Repeat | process-based/syscalls/fallocate/fallocate04.c:262-285 | the outcomes of any number of rounds: five passes, and then the end of the test in the second case of a second round |
| CopyRange.EndsIffInside | process-based/syscalls/copy_file_range/copy_file_range01.c:129-139 | the copy loop can end exactly when the range lies inside the source |
| CopyRange.InsideAlwaysEnds | process-based/syscalls/copy_file_range/copy_file_range01.c:129-139 | inside it every schedule of short copies ends, within as many calls as there are bytes |
| CopyRange.WriteTwice | process-based/syscalls/copy_file_range/copy_file_range01.c:125-139 | writing a range in two adjacent pieces is writing it at once |
| CopyRange.CheckFileContent | process-based/syscalls/copy_file_range/copy_file_range01.c:36-61 | 0 exactly when the first len characters agree, but at least one |
| CopyRange.CheckFileOffset | process-based/syscalls/copy_file_range/copy_file_range01.c:63-98 | 0 exactly when a given offset advanced by len with the position at 0, or else the position is len |
| CopyRange.CopyTest.SysCopyFileRange | process-based/syscalls/copy_file_range/copy_file_range.h:43-61 | the call refuses and changes nothing, or a sound kernel copies at least one byte of what it can and moves the given offset or else the position; an unsound one may leave anything |
| CopyRange.CopyTest.BuildSource | process-based/syscalls/copy_file_range/copy_file_range.h:63-70 | the source is four times the page size of 32-byte lines, the same line over and over |
| CopyRange.CopyTest.CopyLoop | process-based/syscalls/copy_file_range/copy_file_range01.c:129-139 | under any schedule of a sound kernel the destination ends up with the whole range at its offset, unless a call is refused |
| CopyRange.CopyTest.TestOne | process-based/syscalls/copy_file_range/copy_file_range01.c:100-157 | whatever the kernel does, the error count goes up exactly when a call was refused, the contents differ or an offset is off; with a sound kernel only a refusal does that and the range is delivered |
| CopyRange.InsideSource | process-based/syscalls/copy_file_range/copy_file_range01.c:186-187 | every length and offset tried lies inside the source |
| CopyRange.CopyTest.Verify | process-based/syscalls/copy_file_range/copy_file_range01.c:173-214 | the jobs run are the four lengths by six by six offsets, in loop order, 144 in all; the errors are the failed ones; with a sound kernel only refused jobs fail and every other one has delivered its range |
| CopyRange.EmptyRangeMismatch | process-based/syscalls/copy_file_range/copy_file_range01.c:51-60 | a length of 0 would be reported as a mismatch on an empty destination |
| CloseRange.Process.Open | process-based/syscalls/close_range/close_range01.c:155 | the lowest free descriptor below the limit |
| CloseRange.Process.DoCloseRange | process-based/syscalls/close_range/close_range01.c:36-52 | closes or marks everything from 3 on and nothing below, entry by entry, in a private copy when a shared table is to be unshared, leaving the other one alone |
| CloseRange.Test.CheckCloexec | process-based/syscalls/close_range/close_range01.c:71-80 | a failure exactly when the flag is not as expected |
| CloseRange.Test.CheckClosed | process-based/syscalls/close_range/close_range01.c:82-90 | no failure exactly when all are closed |
| CloseRange.Test.Child | process-based/syscalls/close_range/close_range01.c:92-125 | the child's checks hold exactly when the file's descriptor is above 2, and the parent's table is left as each case intends |
| CloseRange.PassesIff | process-based/syscalls/close_range/close_range01.c:164-186 | all checks of parent and child together hold exactly under the condition for the case |
| CloseRange.Test.OpenAndClone | process-based/syscalls/close_range/close_range01.c:155-162 | breaks off exactly when the limit is 1000 or nothing is free; else the parent has what the child left, and after the child's exit has it alone |
| CloseRange.Test.ParentChecks | process-based/syscalls/close_range/close_range01.c:164-183 | no failure exactly when the parent sees what the case expects |
| CloseRange.Test.Run | process-based/syscalls/close_range/close_range01.c:127-193 | case n passes on an initial table exactly under the condition for that case, and then leaves the standard descriptors as they were and nothing else, in a table of the parent's own |
| CloseRange.CasesInOrder | process-based/syscalls/close_range/close_range01.c:195-197 | started from what the ones before leave, the four cases meet their conditions exactly when the limit is above 1000 and 0, 1 and 2 are open |
| CloseRange.Test.RunCases | process-based/syscalls/close_range/close_range01.c:127-197 | run in order, the four cases all pass exactly then, having made every check, and leave the standard descriptors as they were and nothing else |
| CloseRange.LimitTooLow | process-based/syscalls/close_range/close_range01.c:54-69 | with a limit of 1000 no case passes, with one of 1001 every case does |
| DupTables.CntFreeFds | process-based/syscalls/dup/dup06.c:22-31 | counts the free descriptors below the limit |
| DupTables.Dup06.constructor | process-based/syscalls/dup/dup06.c:33-41 | the free count, and an array of -1 five longer than the limit |
| DupTables.ChainFull | process-based/syscalls/dup/dup06.c:54-59 | a chain that leaves nothing free is the ascending list of all that was free |
| DupTables.Dup06.Fill | process-based/syscalls/dup/dup06.c:54-59 | the chain stops at exactly the number of free descriptors, inside the array, having taken them in ascending order |
| DupTables.Dup06.CloseAll | process-based/syscalls/dup/dup06.c:69-72 | restores the table except for a descriptor 0 it had taken |
| DupTables.Dup06.Run | process-based/syscalls/dup/dup06.c:49-74 | passes exactly when as many are free as setup counted; the table is restored except that a free 0 stays taken |
| DupTables.Dup06.Repeat | process-based/syscalls/dup/dup06.c:49-81 | repeated runs all pass when 0 is in use; otherwise only the first does |
| DupTables.EmptyTableTwice | process-based/syscalls/dup/dup06.c:49-81 | two runs on an empty table of two: only the first passes |
| DupTables.Dup205.Fill | process-based/syscalls/dup2/dup205.c:42-53 | entry j holds descriptor j up to the limit, where the chain stops inside the array |
| DupTables.Dup205.CloseAll | process-based/syscalls/dup2/dup205.c:73-76 | closes everything from the first descriptor to the limit, except 0 |
| DupTables.Dup205.Run | process-based/syscalls/dup2/dup205.c:37-78 | passes exactly when something is free, the chain having ended at the limit with an error it expects, and leaves only what was below the first descriptor, or 0, of all below the limit |
| ModifyC.LoneBraces | process-based/syscalls/modify.py:40-41 | the branch for a lone brace adds to the level what counting would |
| ModifyC.LoneIff | process-based/syscalls/modify.py:40 | a line is a lone brace exactly when only white space is around the brace |
| ModifyC.NothingLost | process-based/syscalls/modify.py:26-58 | dropping the markers gives back the input line by line |
| ModifyC.OneEnd | process-based/syscalls/modify.py:51-53 | at most one end marker, and one exactly when a function is first left |
| ModifyC.StartsAreLoneBraces | process-based/syscalls/modify.py:40-45 | as many start markers as lone braces met inside a function |
| ModifyC.LevelIsDepth | process-based/syscalls/modify.py:48-56 | the level is 0 outside a function and inside the brace depth since the line at which the walk entered it |
| ModifyC.BracketedIff | process-based/syscalls/modify.py:31-58 | the first function is bracketed, with no other marker anywhere, exactly when a lone brace follows the signature, line m is the first to balance it with no lone brace on the way, and the lines behind are tidy |
| ModifyC.BracketedAlone | process-based/syscalls/modify.py:31-58 | the function by itself, up to its closing line |
| ModifyC.QuietIff | process-based/syscalls/modify.py:31-56 | no start marker is written behind the function exactly when every later line with the signature is left, or the file ends, without a lone brace on the way |
| ModifyC.BalancedNextLine | process-based/syscalls/modify.py:34-56 | a signature not followed by a lone brace but by a balanced line gets the end marker there and no start marker, and no later function gets one |
| ModifyC.PrototypeTakesTheEnd | process-based/syscalls/modify.py:34-56 | for instance a prototype before another declaration: the function that follows gets a start and no end |
| ModifyC.ShapeBracketed | process-based/syscalls/accept/modify.py:31-58 | a well-formed function comes out as signature, brace, start marker, body, end marker, closing line |
| ModifyC.FindTestFunction | process-based/syscalls/modify.py:12-17 | the name on the first line that assigns one |
| ModifyC.InsertMarkers | process-based/syscalls/modify.py:26-58 | the loop with its three variables writes the lines of the line machine |
| ModifyC.ModifyCFile | process-based/syscalls/modify.py:4-64 | the file becomes what the line machine makes of it, or stays when no function is named |
| ModifyC.Unmodified | vm-based/syscalls/modify.py:19-38 | without a line matching the signature, or without a name, the file stays as it is |
| ModifyC.OneMoreRun | vm-based/syscalls/modify.py:25-62 | a run over a file that carries k pairs of markers adds one pair |
| ModifyC.OneRunText | process-based/syscalls/modify.py:25-62 | what one run writes into a well-formed file, in full, with the file's name in the start marker |
| ModifyC.RepeatedRuns | process-based/syscalls/modify.py:25-62 | k runs leave exactly k start and k end markers in those places and everything else as it was |
| Semaphore.SemPlayerIsTwoRounds | process-based/syscalls/eventfd2/eventfd2_03.c:34-55 | the player is the general one with rounds of 1 and 5 |
| Semaphore.ProgramBalanced | process-based/syscalls/eventfd2/eventfd2_03.c:34-55 | for any rounds a player never waits for more than it has posted and posts again only when it has waited for all of it |
| Semaphore.PostsNeverBlock | process-based/syscalls/eventfd2/eventfd2_03.c:27-32 | no counter gets near the value at which a post would block |
| Semaphore.NoDeadlock | process-based/syscalls/eventfd2/eventfd2_03.c:34-55 | in every reachable state one of the players can move unless both are done |
| Semaphore.RunKeepsInv | process-based/syscalls/eventfd2/eventfd2_03.c:34-55 | in every interleaving each counter is units posted minus units waited for |
| Semaphore.EveryRunEndsWell | process-based/syscalls/eventfd2/eventfd2_03.c:57-78 | every interleaving is finite, and when it cannot go on both players are done and both counters 0 |
| Semaphore.RunPlayers | process-based/syscalls/eventfd2/eventfd2_03.c:57-78 | whatever the scheduler does, both players come to their end and leave both counters at 0 |
| Control.PolledKeepsInv | process-based/iago_attack/accept/iago_attack.py:57-69 | after its poll a poller is attached exactly when the file holds its command; its probes are all installed or none, attach and detach alternate |
| Control.PolledAround | process-based/iago_attack/accept/iago_attack.py:55-69 | whatever white space is around it, the command attaches the whole group and any other text detaches it |
| Control.CommandWithLineFeed | process-based/iago_attack/readlink/iago_attack.py:54-61 | each of the five commands with white space behind it attaches its poller |
| Control.Poller.Poll | process-based/iago_attack/fstat/iago_attack.py:114-131 | attaches or detaches the whole group, probe by probe |
| Control.SystemRuns | process-based/iago_attack/epoll_wait/iago_attack.py:120-134 | in every interleaving of writes and turns of all processes each keeps its invariant |
| Control.SettledAfterPoll | process-based/iago_attack/readlink/iago_attack.py:54-67 | with no write since, a poller that has polled is attached exactly when the file holds its command |
| Control.AtMostOneAttached | process-based/iago_attack/read/iago_attack.py:87-105 | after any history, once all have polled since the last write, at most one poller has probes installed |
| Control.CommandsApart | process-based/iago_attack/readlink/iago_attack.py:58 | the five commands differ, and none concerns the mutation listener or stops the monitor |
| Control.ListenerRuns | process-based/mutation/mutation.py:50-73 | for any contents seen attachments and acknowledgements alternate, the saved name is the last attached, and nothing is ever detached |
| Control.UnprefixedIgnored | process-based/mutation/mutation.py:62 | contents without the prefix change nothing |
| Control.HeardAround | process-based/mutation/mutation.py:59-73 | whatever white space is around it, a prefixed name attaches when nothing is attached, "mutation_done" clears the flag, and other text does nothing |
| Control.ListenerByContents | process-based/mutation/mutation.py:57-73 | the flag is set exactly when a request has had no acknowledgement after it, and nothing is installed exactly when nothing was ever requested |
| Control.ProbesOutliveTheFlag | process-based/mutation/mutation.py:71-73 | a clear flag means that nothing is installed exactly when nothing was ever requested or the last request is unacknowledged; otherwise the probe attached last is still there |
| Control.DoneDetachesNothing | process-based/mutation/mutation.py:71-73 | attach, then done: the flag is clear and the probe installed |
| Control.Listener.OnModify | process-based/mutation/mutation.py:57-73 | one event as the reference step has it |
| Control.MonitorRuns | process-based/syscall_monitor/syscall_monitor.py:418-444 | in any interleaving of the two threads the flag equals the switch between events, starts and stops alternate, events are printed only while monitoring |
| Control.FlagFollowsFile | process-based/syscall_monitor/syscall_monitor.py:418-434 | in any interleaving the flag is set exactly when the last read between events found something other than "0", a missing file counting as "0" |
| Control.MonitoredAround | process-based/syscall_monitor/syscall_monitor.py:405-434 | white space around the "0" makes no difference |
| Control.Monitor.ReadSwitch | process-based/syscall_monitor/syscall_monitor.py:426-433 | afterwards the flag is set exactly when the file is there and holds something other than "0" |
| Control.Monitor.SetSwitch | process-based/syscall_monitor/syscall_monitor.py:431-434 | the switch follows the flag |
| Control.WatchFollowsFile | process-based/syscall_monitor/syscall_monitor.py:405-434 | with all processes on one file, a turn of the file thread sets the flag by what the file then holds |
| Control.Monitor.HandleEvent | process-based/syscall_monitor/syscall_monitor.py:438-444 | an event is printed exactly while monitoring |
| Walkers.ArgOf | process-based/syscalls/fanotify/fanotify.h:241-248 | the flag with the dependencies of the first entry for it before the end of the list, or alone if there is none |
| Walkers.ArgIs | process-based/syscalls/fanotify/fanotify.h:241-248 | the first entry for a flag adds all its dependencies |
| Walkers.GetSupportedInitFlags | process-based/syscalls/fanotify/fanotify.h:222-255 | refuses unknown flags; else after exactly 32 shifts the bits of those flags whose probe with dependencies succeeds, and no others |
| Walkers.GetEventInfo | process-based/syscalls/fanotify/fanotify.h:313-328 | the first record of the wanted type, at the offset behind all the records before it, a last one of a header's length excepted; none exactly when there is no other |
| Walkers.MissedIff | process-based/syscalls/fanotify/fanotify.h:321-322 | a wanted record is missed exactly when the only one is a last one of a header's length |
| Walkers.HeaderOnlyMissed | process-based/syscalls/fanotify/fanotify.h:321-322 | for instance when it is the only record |
| KeyQuota.User.VerifyMaxBytes | process-based/syscalls/add_key/add_key05.c:82-142 | passes exactly when there is room; then the limit is reached to the byte, the refused payload would have gone one byte over it, and the last payload fits the buffer |
| KeyQuota.User.VerifyMaxKeys | process-based/syscalls/add_key/add_key05.c:144-177 | passes exactly when the bytes suffice for the missing keys; then every key is in use, those added being all different |
| KeyQuota.User.DoTest | process-based/syscalls/add_key/add_key05.c:190-206 | the child passes exactly when its first key is added and the check that follows has room |
| KeyQuota.DescFits | process-based/syscalls/add_key/add_key05.c:147-153 | every description fits its 15 bytes |
| KeyQuota.DecimalDenotes | process-based/syscalls/add_key/add_key05.c:153 | the digits written are digits, without a leading zero, and denote the number |
| KeyQuota.DescDistinct | process-based/syscalls/add_key/add_key05.c:152-154 | different keys get different descriptions |

## Left out

- The tests that make one call and compare an error number, and the probe bodies inside the Python files.
- bpf_prog03, 04, 06 and 07: programs the kernel's verifier is to reject; the kernel's verifier is not part of this model.
- BPF: byte order is little-endian, map cells are read and written whole, and pointers are symbolic, so no arithmetic on addresses beyond the frame pointer is defined; instructions the three programs do not use are absent.
- Loading programs: what the kernel does with one is an input; retries, logs, sockets, the packet and the resource limits around them in `bpf_common.c` and `bpf_prog*.c`.
- Fanotify.CheckEvents: stops where the source would read behind `event_set`, because what C then does is undefined; provoking the events, marks and file systems are not modelled, and the bits' values are parameters since `lapi/fanotify.h` is not part of this model.
- ScatterGather.RunTest: how far the kernel is willing to transfer is a parameter; forks, checkpoints and shared memory between the children are left out; a chunk is an array, and sizes are not bounded by the width of `int`.
- Fallocate: a write or allocation past a hole, sparse extents smaller than a block, journalling and `fsync` are not modelled; `st_blocks * 512` is the number of allocated blocks times the block size.
- CopyRange: the two files are distinct; a kernel that goes wrong still copies something in each call; cross-device support and the two ways of making the call are one contract.
- CopyRange.CopyTest.Verify: is stated for page sizes of at least 2, because with 1 a length tried is 0 and `CopyRange.EmptyRangeMismatch` applies.
- CloseRange.Test.RunCases: the descriptors are those of the two processes alone, and the kernel-taint check at the end is left out.
- DupTables: what a descriptor refers to is left out; descriptors are numbers that are open or free.
- ModifyC: regular expressions are parameters, white space is Python's ASCII white space, and files are sequences of lines; the walk over directories is left out.
- Semaphore: the two processes take whole reads and writes as single steps; fork and exit are left out.
- Control: writes and reads of the switch file are single steps; inotify, sleeps, a failing attach and the keyboard-interrupt paths are left out, as is what the probes do.
- Walkers.GetEventInfo: records are at least a header long, as the kernel makes them; on a shorter one the source's loop may not advance.
- KeyQuota: the kernel's charge is one constant more than description and payload, and keys are not garbage-collected while the test adds them.
