# FIFO page replacement

This project models the first-in-first-out page-replacement routine
`FIFO(numPages, numFrames, accessedPages)` of the virtual-memory simulator
(`src/VirtualMemory.kt`). Physical memory has frames numbered 1..numFrames.
The routine walks the page accesses once:

- An access to a page already held by a frame is a hit. It changes nothing
  and records `null`.
- An access to any other page is a fault. The page goes into the frame under
  a rotating cursor, which starts at frame 1. Whatever page that frame held is
  evicted. The access records the frame number, and the cursor moves on by
  one, from numFrames back to 1.

The result has one entry per access.

There are two modules:

- `FifoSpec` (`fifo_spec.dfy`) is a pure specification. `Step` performs one
  access on a `Memory`: the frames as a sequence, frame f at index f - 1, plus
  the cursor. `Simulate` folds `Step` over the accesses and yields the final
  memory and the trace, where `None` stands for Kotlin's `null`. Lemmas
  describe what a run does: hits versus faults, round-robin frame choice, no
  page in two frames, which pages are resident, and the behaviour when the
  distinct pages fit in the frames. One lemma checks the concrete example from
  the unit tests.
- `VirtualMemory` (`virtual_memory.dfy`) is the routine itself, on arrays as
  the source keeps them:
  - a flag per page 0..numPages saying whether it is in memory;
  - a frame array of size numFrames + 1 with slot 0 unused;
  - the result array;
  - the cursor `currentFrame`.

  `Fifo` is proved to return exactly the `Simulate` trace. Its loop
  invariant ties each array to the specification's memory. The miss branch of
  the loop body is written as the method `Fault`, so each part of the proof
  stays small.

The routine indexes its arrays by page and by frame, so the Kotlin code only
works when every accessed page lies in 0..numPages and at least one frame
exists once there is an access. With no accesses it needs only
numFrames >= -1, so that the frame array of numFrames + 1 slots can be
allocated. `Fifo` requires exactly these conditions; the `VirtualMemory.Fifo`
line under "Left out" lists the one throwing input it does not exclude.
Page 0 is accepted because the code builds one flag per page in 0..numPages.

## Model

| member | source | states |
|---|---|---|
| VirtualMemory.Fifo | src/VirtualMemory.kt:1-21 | the returned array is new, has one entry per access, and its contents are the FIFO trace `Simulate(numFrames, accessedPages).trace`; with no accesses it is empty for any frame count from -1 up |
| VirtualMemory.Fault | src/VirtualMemory.kt:7-18 | on a miss, the flag array, the frame array (slot 0 unused) and the cursor become exactly those of the memory after `Step`, and the result array gains the entry `Step` records at this access |
| VirtualMemory.FaultFlags | src/VirtualMemory.kt:8-17 | clearing the evicted page's flag (when the frame held one) and then setting the new page's flag gives exactly the residency flags of the memory after the fault |
| VirtualMemory.FaultFrames | src/VirtualMemory.kt:12 | storing the page in the cursor's slot of the frame array gives the frames of the memory after the fault |
| VirtualMemory.PaddedWrite | src/VirtualMemory.kt:4-11 | writing entry i of a result array whose first i entries are the trace so far, and whose other entries are still null, extends the trace by that entry |
| FifoSpec.Empty | src/VirtualMemory.kt:2-5 | initial memory: numFrames frames, all empty, no page resident, no duplicates, cursor on frame 1 |
| FifoSpec.Step | src/VirtualMemory.kt:7-18 | an access records None exactly when its page is resident, and then memory is unchanged; otherwise it records the cursor's frame, puts the page there, and moves the cursor to the next frame, wrapping from the last to 1; afterwards the page is resident |
| FifoSpec.FaultTouchesOneFrame | src/VirtualMemory.kt:12 | a fault leaves every frame other than the cursor's frame as it was |
| FifoSpec.StepKeepsNoDuplicates | src/VirtualMemory.kt:7-18 | an access never puts a page into two frames |
| FifoSpec.StepResidency | src/VirtualMemory.kt:8-17 | after a fault, a page is resident if and only if it is the new page, or it was resident and was not the page evicted from the cursor's frame |
| FifoSpec.Simulate | src/VirtualMemory.kt:1-21 | the trace has one entry per access; the cursor is always one of the numFrames frames |
| FifoSpec.SimulateNoDuplicates | src/VirtualMemory.kt:6-19 | at every point of a run, no page occupies two frames |
| FifoSpec.ResidentPagesWereAccessed | src/VirtualMemory.kt:12-17 | only pages that were accessed are ever resident |
| FifoSpec.ResidentPageInRange | src/VirtualMemory.kt:8-10 | when all accesses lie in 0..numPages, so does every resident page, including the one evicted, whose flag is cleared |
| FifoSpec.SimulatePrefix | src/VirtualMemory.kt:6-11 | a run never revises past entries: the trace of a prefix of the accesses is the same prefix of the trace |
| FifoSpec.CursorAfter | src/VirtualMemory.kt:13-16 | the cursor after k faults is always a frame in 1..numFrames |
| FifoSpec.CursorAfterIsModulo | src/VirtualMemory.kt:13-16 | after k faults the cursor stands on frame k mod numFrames + 1 |
| FifoSpec.CursorBeforeWrap | src/VirtualMemory.kt:13-16 | before the frames are used up, the cursor after k faults is frame k + 1 |
| FifoSpec.CursorFollowsFaults | src/VirtualMemory.kt:5-18 | the cursor moves only on faults, one frame per fault, starting from 1 |
| FifoSpec.TraceEntry | src/VirtualMemory.kt:7-12 | entry i is None if and only if page i is resident just before access i; otherwise it is the cursor's frame at that moment, and right after access i that frame holds the page |
| FifoSpec.TraceNamesFrames | src/VirtualMemory.kt:11-16 | every entry that names a frame names one of 1..numFrames |
| FifoSpec.FirstAccessFaults | src/VirtualMemory.kt:7-11 | the first access to a page always faults |
| FifoSpec.RoundRobin | src/VirtualMemory.kt:11-16 | a fault that follows k earlier faults goes into frame k mod numFrames + 1 |
| FifoSpec.RepeatedPage | src/VirtualMemory.kt:6-18 | accessing one page n times faults once into frame 1, then only hits, and leaves the page resident |
| FifoSpec.FewPagesNoEviction | src/VirtualMemory.kt:6-18 | when the distinct pages fit in the frames, nothing is evicted: one fault per distinct page, a page is resident if and only if it was accessed, and the frames past the faults stay empty |
| FifoSpec.FaultOnlyOnFirstAccess | src/VirtualMemory.kt:7-11 | when the distinct pages fit in the frames, an access faults if and only if it is the first access to its page |
| FifoSpec.ThreeFramesExample | test/VirtualMemoryKtTest.kt:15-19 | with 3 frames, the accesses 1 3 2 4 1 4 5 3 2 give the trace 1 2 3 1 2 null 3 1 2 |

## Left out

- LRU, OPT, the score function (`countScore`), `calculateSubstitution`,
  `runFromFiles`, `Task` and any validator of results: tests and
  `src/Plot.kt` refer to them, but their source is not part of this model.
  `FifoSpec.Faults` counts the faults of a trace so that fault counts can be
  stated (round-robin order, the cursor position, one fault per distinct
  page). It does not claim to model the score function.
- `main` in `src/VirtualMemory.kt` prints a sample run. That is console
  output, not modelled.
- `src/Plot.kt` (charting), `test/TestGenerator.kt` and
  `test/IntegrationTest.kt` (file and random input) are outside the
  replacement routine.
- VirtualMemory.Fifo: the error paths are not modelled as results, and
  Kotlin's 32-bit `Int` is modelled by unbounded integers. On these inputs
  the Kotlin code throws:
  - a page outside 0..numPages, or any access with fewer than one frame,
    gives an index error;
  - `numFrames` below -1 fails when the frame array is allocated;
  - `numFrames == Int.MAX_VALUE` makes `numFrames + 1` at
    `src/VirtualMemory.kt:3` wrap to a negative size, so the allocation fails
    even with no accesses.
  The method requires inputs that avoid the first two instead of returning
  them. It does not exclude the third: for that input it returns a trace
  where the Kotlin code throws. The flag list is built from the range
  `0..numPages` at `src/VirtualMemory.kt:2`, which computes no sum; a huge
  numPages exhausts memory there rather than wrapping. The cursor increment
  at `src/VirtualMemory.kt:16` runs only while `currentFrame < numFrames`,
  so it cannot wrap.
- VirtualMemory.Fault: it is the body of the Kotlin loop's miss branch, kept
  as a separate method so that its proof stays small. The Kotlin code has
  no such function.
