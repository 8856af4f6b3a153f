# alpaka: verified models of its parallel and arithmetic core

This project models parts of alpaka, a C++ library for performance-portable parallel kernels, and
proves properties of the models with Dafny 4.11. `dafny verify dfyconfig.toml` checks all of it.

**Prefix sum** (`example/scan`). Both variants of the scan, for power-of-two chunks of any size, any
device padding and any input length, out of place or in place.
`Sums`, `Sweeps` and `BlockScans` hold the sequential definitions and the tree invariants of the two
sweeps. `MiniBlock`, `SharedScan`, `ScanKernel`, `ImprovedKernel` and `RecursiveScan` are the imperative
models, on arrays, with the work items of a phase taken in arbitrary order. `Interleaving` is a small
machine of single loads and stores, `RaceFreeSweeps` the sweeps on it. `GridMachine` puts blocks with
shared memory and barriers next to each other, `GridScan` is the plain scan kernel on that machine, its chunks
dealt out to any number of blocks, and `MachineScan` the whole recursion: every interleaving of the accesses of
all threads of all blocks of all kernels leaves the sequential prefix sum.

**Callback thread** (`include/alpaka/core/CallbackThread.hpp`). `CallbackProtocol` is a transition system
of submitters, destructor and worker, one step per access to shared state, with spurious wake-ups, tasks
that throw, tasks that submit and tasks that destroy their own thread. Its theorems are about every run, and about
what every reachable state allows: any number of submissions, destruction over any queue, and each thread's next step.
`CallbackThread` is the object, one method per critical section.

**Indices and layout** (`Vec.hpp`, `FlatIdxContainer.hpp`, `api/util.hpp`). `VecIndex` has linear indices and
their inverse in any dimension with wrap-around, `IdxMap` the distribution of an index range over threads,
`TreeReduce` the recursive reduction, `PitchedLayout` the padded memory layout.

**Integer algorithms** (`utility.hpp`, `api/util.hpp`). `IntegerMath` has powers and powers of two over a
wrapping index type, `NthRoot` the root by bisection in it, `Limits` the shrinking of extents to a limit. The
index type is at least as wide as `int`; narrower ones are promoted and wrap elsewhere.

**Cooperative kernels.** `WarpSum` is the shuffle reduction with arbitrary values for lanes outside the warp;
`Heat` the tiled, double-buffered heat equation over exact reals, against the explicit finite-difference scheme on
the whole grid.

Some results say where the code does not meet its purpose, or meets it only under a condition:

- The doubling loop of `highestPowerOfTwo` stops exactly for values below half the range (`StopsExactly`).
- A probe of `nthRootFloor` may have a power that wraps to a small number. Up to half the range the result is right
  exactly if no probe on the way does so (`RootIsFloorExactly`), and beyond if the first does not (`LargeValues`);
  after that a wrapped sum may repair it by chance (`MisledLoopRecovers`). It is enough that the power of the first
  probe fits (`FittingRootIsFloor`). For degrees up to one the loop ends exactly for values up to half the range
  (`SmallDegreeEndsExactly`), and never for the largest value of the type (`LargestValueNeverEnds`).
- `intPow` and `ipow` agree on all non-negative exponents and differ on most negative ones (`PowersAgreeExactly`).
- `adjustToLimit` compares a product that may wrap. The loop ends exactly for a positive limit, or if halving makes
  the product vanish in the index type (`EndsExactly`). Its result exceeds the limit exactly if the loop meets a
  product above the limit that wraps to one below (`MeetsLimitExactly`); neither happens to an input whose product
  is positive and fits (`FittingIsExact`).
- `emulatedAlignedMemDescription` gives a sound layout, for alignments that are powers of two, exactly if its sizes
  fit their types, in every dimension.
- A strided walk over a range stops at its end exactly if the range plus one stride fits (`WalksFitExactly`);
  otherwise some element is visited twice (`VisitedOnceExactly`).
- The stability check of the heat equation accepts every negative time step; what it accepts is stable exactly for
  the others (`AcceptedIsStableExactly`).
- The boundary kernel takes the number of rows for the last column, and with one row its range of inner rows wraps.
  It covers the edge of the grid exactly if the grid has two rows, or is square with more (`CoversEdgeExactly`).
- `isEmpty` may hold before the last promise is set (`EmptyBeforePromise`); `EmptyMeansAllRan` says exactly when.

Reading conventions: a buffer is an `array`, a type of machine integers with `modulus` values appears where the
width matters, and `requires` clauses state what the code asks of its callers. A phase between two barriers is a
loop over a `todo` set from which the next work item is drawn arbitrarily.

## Model

| member | source | states |
|---|---|---|
| `RecursiveScan.Scan` | `example/scan/src/scan.hpp:178-228` | for every input length, both variants and both scan types, in place or not, the output becomes the sequential prefix sum of the original input; the recursion ends because there are fewer chunk sums than elements |
| `RecursiveScan.ScanBlocks` | `example/scan/src/scan_improved.hpp:150-152` | blocks in any order leave every chunk scanned and, where asked for, every chunk sum, although output may be input |
| `RecursiveScan.AddIncrements` | `example/scan/src/scan.hpp:157-176` | packs and remainder, in any order, add to each element exactly the increment of its own chunk |
| `RecursiveScan.PackInChunk` | `example/scan/src/scan.hpp:172-173` | a pack that starts at a multiple of a width dividing the chunk lies in one chunk, so one lookup serves all its lanes |
| `RecursiveScan.PacksFit` | `include/alpaka/onAcc/internal/SimdConcurrent.hpp:134-142` | the packs dealt out in equal numbers to all workers end inside the data |
| `RecursiveScan.Combine` | `example/scan/src/scan.hpp:209-217` | chunk scans plus exclusively scanned chunk sums are the prefix sums |
| `BlockScans.TwoLevels` | `example/scan/src/scan.hpp:194-222` | a chunk scan plus the scanned sum of all earlier chunks is the full prefix sum, element by element |
| `BlockScans.ChunkSumsPrefix` | `example/scan/src/scan.hpp:213-217` | the sums of the first c chunks add up to everything before chunk c |
| `Arith.DivCeilShrinks` | `example/scan/src/scan.hpp:191-194` | more than one chunk means strictly fewer chunks than elements |
| `Arith.DivCeil` | `include/alpaka/utility.hpp:32-37` | the least number of chunks that covers a elements |
| `Arith.DivCeilFitsExactly` | `include/alpaka/utility.hpp:32-37` | in an index type of 32 or more bits the result is the ceiling exactly if the numerator fits |
| `Arith.DivExZero` | `include/alpaka/utility.hpp:39-44` | the quotient rounded down, but at least one |
| `ScanKernel.ScanChunk` | `example/scan/src/scan.hpp:66-151` | one chunk of the plain kernel, items of each phase in any order: its part of the output becomes the chunk scan and the returned sum is the chunk sum |
| `ScanKernel.CopyToShared` | `example/scan/src/scan.hpp:74-82` | the shared slots hold the chunk, with zeros past the end of the input |
| `ScanKernel.WriteBack` | `example/scan/src/scan.hpp:137-149` | exactly the chunk's elements inside the input are written, each once its input was read |
| `SharedScan.ScanShared` | `example/scan/src/scan.hpp:84-135` | the padded slots become their exclusive prefix sum and the saved value is their total, whatever the order of items in a level |
| `SharedScan.UpSweepLevel` | `example/scan/src/scan.hpp:88-98` | one level of the up-sweep in any item order equals the level as a whole |
| `SharedScan.DownSweepLevel` | `example/scan/src/scan.hpp:121-133` | one level of the down-sweep in any item order equals the level as a whole |
| `SharedScan.PaddingIncreases` | `example/scan/src/scan.hpp:25-36` | the padded position grows strictly with the index, for every device kind |
| `SharedScan.PaddedRow` | `example/scan/src/scan.hpp:20-36` | on devices with banks every bank row is followed by one unused slot |
| `SharedScan.SameColumnOtherBank` | `example/scan/src/scan.hpp:20-36` | the same column of two bank rows lies in different banks, up to as many rows apart as there are banks |
| `Sweeps.UpStep` | `example/scan/src/scan_improved.hpp:59-67` | an up-sweep level turns segment sums of width offset into segment sums of twice the width |
| `Sweeps.DownStep` | `example/scan/src/scan_improved.hpp:76-86` | a down-sweep level turns prefix sums at multiples of a width into prefix sums at multiples of half the width |
| `MiniBlock.ScanMiniBlock` | `example/scan/src/scan_improved.hpp:52-91` | for every power-of-two length, in place on a region of an array: exclusive prefix sum of the original contents, original sum returned, nothing else touched |
| `MiniBlock.AddIncrements` | `example/scan/src/scan_improved.hpp:95-102` | every element of the mini block grows by the increment, nothing else changes |
| `ImprovedKernel.ScanChunk` | `example/scan/src/scan_improved.hpp:120-325` | the improved kernel leaves the same chunk scan and returns the same chunk sum as the plain kernel, for every power-of-two number of threads, also with a single mini block |
| `ImprovedKernel.ScanTiledChunk` | `example/scan/src/scan_improved.hpp:164-324` | the same for any split of a chunk into threads and mini blocks, over load, sweep and write-back |
| `ImprovedKernel.LoadThread` | `example/scan/src/scan_improved.hpp:169-196` | the four-wide and the guarded load put the same values into the registers |
| `ImprovedKernel.StoreThread` | `example/scan/src/scan_improved.hpp:283-322` | the four-wide and the guarded store write the same elements |
| `ImprovedKernel.WidePathInBounds` | `example/scan/src/scan_improved.hpp:143-154` | the four-wide path is open to a chunk exactly if the whole chunk lies inside the input |
| `ImprovedKernel.AddThreadIncrements` | `example/scan/src/scan_improved.hpp:268-281` | after adding the scanned mini-block sums the registers hold the exclusive scan of the chunk wherever an element exists |
| `ImprovedKernel.Configured` | `example/scan/src/scan_improved.hpp:122-129` | the computed split into threads, mini blocks and elements covers the chunk exactly |
| `Interleaving.OutcomeIsSolo` | `example/scan/src/scan.hpp:85-100` | work items with disjoint footprints leave, under every interleaving of their loads and stores, what each leaves alone |
| `Interleaving.OutcomeExistsUniquely` | `example/scan/src/scan.hpp:85-100` | a phase between two barriers can always finish and has exactly one outcome |
| `Interleaving.AnyItemCanGoOn` | `example/scan/src/scan.hpp:85-100` | after any schedule any unfinished item can perform its next load or store |
| `RaceFreeSweeps.LevelWellFormed` | `example/scan/src/scan.hpp:85-98` | the padded slots of different items of a level are disjoint and in bounds |
| `RaceFreeSweeps.LevelOutcome` | `example/scan/src/scan.hpp:116-134` | every interleaving of a level has the effect of the sequential level |
| `RaceFreeSweeps.EveryInterleavingScans` | `example/scan/src/scan.hpp:84-135` | up-sweep, save and clear, down-sweep: every run with any interleaving in each level scans the chunk and saves its sum |
| `RaceFreeSweeps.ChunkRunExists` | `example/scan/src/scan.hpp:84-135` | such a run exists for every chunk |
| `GridMachine.BlocksAreIsolated` | `example/scan/src/scan.hpp:66-151` | blocks without conflicting accesses: every interleaving of all blocks and of the items between their barriers leaves, where a block looks, what that block leaves when running alone, and changes nothing else |
| `GridMachine.GridOutcomeExists` | `example/scan/src/scan.hpp:66-151` | such a grid can always run to its end |
| `GridMachine.AnyItemCanGoOn` | `example/scan/src/scan.hpp:66-151` | after any schedule any unfinished item of any block can perform its next access: threads wait for nothing but barriers |
| `GridMachine.BarrierOpensExactly` | `example/scan/src/scan.hpp:87-100` | a block enters its next phase exactly by passing its barrier after all its items have finished |
| `GridMachine.EveryRunCanFinish` | `example/scan/src/scan.hpp:66-151` | whatever happened so far, the grid can still run to its end |
| `GridMachine.CompleteRunIsOutcome` | `example/scan/src/scan.hpp:66-151` | every schedule after which all blocks are at their end counts as a run |
| `GridScan.KernelRaceFree` | `example/scan/src/scan.hpp:66-151` | however the chunks are dealt out to blocks that reuse their shared memory: no two items between two barriers, and no two blocks, have conflicting accesses, with the output in place of the input or behind it |
| `GridScan.AnyListsAreDealt` | `example/scan/src/scan.hpp:61-67` | any lists in which every chunk occurs exactly once are a dealing of the chunks to blocks |
| `GridScan.ListDone` | `example/scan/src/scan.hpp:66-151` | a block running alone leaves each of its chunks scanned, although chunks already done have overwritten input and shared memory |
| `GridScan.EveryGridInterleaving` | `example/scan/src/scan.hpp:48-152` | for any number of blocks, each taking any of the chunks one after another in the same shared memory: every interleaving of the single accesses of all threads of all blocks to global and shared memory leaves every chunk of the output scanned and, where asked for, every chunk sum, in place or not, for both scan types and every padding |
| `GridScan.KernelRuns` | `example/scan/src/scan.hpp:48-152` | the kernel can always run to its end, however the chunks are dealt out and whatever shared memory holds at first |
| `MachineScan.IncrementOutcome` | `example/scan/src/scan.hpp:157-176` | every interleaving of packs and single elements adds to each element the increment of its own chunk |
| `MachineScan.EveryScanRun` | `example/scan/src/scan.hpp:178-228` | the whole recursion on that machine: however the chunks of each launch are dealt out to blocks and the accesses of all launched kernels interleave, the result is the sequential prefix sum |
| `MachineScan.ScanRunExists` | `example/scan/src/scan_main.hpp:84` | every input has such a run, in place and not in place |
| `MachineScan.EveryLaunchIsRun` | `example/scan/src/scan.hpp:187-225` | every dealing of the chunks, every placement of the buffers and every complete schedule counts as a run of the kernel |
| `MachineScan.EveryIncrementIsRun` | `example/scan/src/scan.hpp:157-176` | so does every number of packs and every finished schedule of the increments |
| `MachineScan.RunsCompose` | `example/scan/src/scan.hpp:194-228` | any such runs put together are a run of the whole recursion |
| `CallbackProtocol.ExactlyOnceInOrder` | `include/alpaka/core/CallbackThread.hpp:105-127` | in every reachable state at most one worker was started; tasks are begun, run, popped and destroyed once each, in submission order; the entry popped is the shell of the task that just ran |
| `CallbackProtocol.PromiseComesLast` | `include/alpaka/core/CallbackThread.hpp:149-190` | a promise that is set belongs to a task that ran, was popped and was destroyed, and carries how that task ended |
| `CallbackProtocol.RunsOnlyAppend` | `include/alpaka/core/CallbackThread.hpp:149-190` | no run revises what happened, so each promise is set at most once and the logs order the events |
| `CallbackProtocol.EmptyMeansAllRan` | `include/alpaka/core/CallbackThread.hpp:129-133` | the queue is empty exactly if everything submitted was popped; then all of it has run, and all promises are set exactly if the worker is past the last one |
| `CallbackProtocol.EmptyBeforePromise` | `include/alpaka/core/CallbackThread.hpp:177-190` | a reachable state in which the queue is empty and the last promise is not yet set |
| `CallbackProtocol.NoSleepThroughWork` | `include/alpaka/core/CallbackThread.hpp:157-163` | a sleeping worker with a reason to be awake has a notification on its way, by a thread that holds the mutex |
| `CallbackProtocol.JoinedMeansDrained` | `include/alpaka/core/CallbackThread.hpp:79-101` | when a destructor on another thread returns, all submitted tasks have run, all promises are set and the worker is gone |
| `CallbackProtocol.DestructionDrains` | `include/alpaka/core/CallbackThread.hpp:79-101` | joining, detaching or without a worker: every run from the destructor on that cannot continue has run every task, set every promise and ended the worker |
| `CallbackProtocol.AtRestMeansDone` | `include/alpaka/core/CallbackThread.hpp:149-192` | no deadlock: where no thread can go on, everything submitted is done and no destructor hangs |
| `CallbackProtocol.RunsAreBounded` | `include/alpaka/core/CallbackThread.hpp:149-192` | between two calls every run has a bounded number of steps; after the stop request spurious wake-ups are covered too |
| `CallbackProtocol.ComesToRest` | `include/alpaka/core/CallbackThread.hpp:149-192` | from every state some run without new calls comes to rest |
| `CallbackProtocol.RunKeepsInv` | `include/alpaka/core/CallbackThread.hpp:63-68` | the invariant relating queue, mutex, thread handle, stop flag, worker position and history holds after every run |
| `CallbackProtocol.SubmitIsRun` | `include/alpaka/core/CallbackThread.hpp:118-124` | submitting as one critical section is a run of the single steps |
| `CallbackProtocol.CloseIsRun` | `include/alpaka/core/CallbackThread.hpp:81-86` | the critical section of the destructor is a run of the single steps |
| `CallbackProtocol.CanSubmit` | `include/alpaka/core/CallbackThread.hpp:103-127` | while the object is alive and the mutex free any thread can submit, however many tasks were submitted or are queued; the task goes to the end of the queue |
| `CallbackProtocol.TaskCanSubmit` | `include/alpaka/core/CallbackThread.hpp:103-127` | so can a task that runs or is being destroyed, also while a destructor on another thread waits |
| `CallbackProtocol.CanClose` | `include/alpaka/core/CallbackThread.hpp:79-101` | the destructor can begin over any queue |
| `CallbackProtocol.TaskCanClose` | `include/alpaka/core/CallbackThread.hpp:90-98` | also on the worker, by a running task or its destruction |
| `CallbackProtocol.AnyNumberQueued` | `include/alpaka/core/CallbackThread.hpp:103-127` | for every number there is a reachable state with that many tasks queued in order, and one with the destructor begun over them |
| `CallbackProtocol.TaskEndsEitherWay` | `include/alpaka/core/CallbackThread.hpp:168-176` | a running task may return or throw |
| `CallbackProtocol.SleeperMayWake` | `include/alpaka/core/CallbackThread.hpp:158-160` | a sleeping worker may wake up without cause |
| `CallbackProtocol.WorkerGoesOn` | `include/alpaka/core/CallbackThread.hpp:149-190` | the worker waits for nothing but the mutex, a notification and calls of its own task |
| `CallbackProtocol.HolderGoesOn` | `include/alpaka/core/CallbackThread.hpp:118-124` | a thread that holds the mutex waits for nothing |
| `CallbackProtocol.DestructorReturns` | `include/alpaka/core/CallbackThread.hpp:87-100` | the destructor waits for the end of the worker only, and not on the worker itself |
| `CallbackProtocol.PopReaches` | `include/alpaka/core/CallbackThread.hpp:177-182` | at the pop the queue is not empty and its front is the shell of the task that just ran |
| `CallbackThread.CallbackThread.Submit` | `include/alpaka/core/CallbackThread.hpp:103-127` | appends the task, starts a worker only if there is none, leaves no worker asleep |
| `CallbackThread.CallbackThread.IsEmpty` | `include/alpaka/core/CallbackThread.hpp:129-133` | answers whether everything submitted was popped; then everything has run |
| `CallbackThread.CallbackThread.Close` | `include/alpaka/core/CallbackThread.hpp:81-86` | requests the stop if there is a worker and wakes it |
| `CallbackThread.CallbackThread.JoinOrLeave` | `include/alpaka/core/CallbackThread.hpp:88-100` | after joining, all promises are set; on its own thread it detaches |
| `CallbackThread.CallbackThread.TakeTask` | `include/alpaka/core/CallbackThread.hpp:156-167` | sleeps, takes the front task and leaves its shell, or ends |
| `CallbackThread.CallbackThread.PopTask` | `include/alpaka/core/CallbackThread.hpp:177-182` | removes the front entry |
| `CallbackThread.CallbackThread.Settle` | `include/alpaka/core/CallbackThread.hpp:183-190` | destroys the task, then sets its promise |
| `CallbackThread.CallbackThread.WorkUntilStopped` | `include/alpaka/core/CallbackThread.hpp:149-191` | with the stop requested the loop ends, having set the promises of all remaining tasks in order with their outcomes |
| `VecIndex.Linearize` | `include/alpaka/Vec.hpp:846-857` | the position in mixed radix, modulo the width of the index type |
| `VecIndex.MapToND` | `include/alpaka/Vec.hpp:888-916` | the pitch-based division from the slowest dimension on yields the digits of the position, without overflow |
| `VecIndex.PitchExtents` | `include/alpaka/Vec.hpp:892-896` | each pitch is the product of the faster extents |
| `VecIndex.MapToNDOfLinearize` | `include/alpaka/Vec.hpp:846-916` | for every index in range, mapToND undoes linearize |
| `VecIndex.LinearizeOfMapToND` | `include/alpaka/Vec.hpp:846-916` | for every position, linearize undoes mapToND, and the index is in range exactly if the position is below the product |
| `VecIndex.NoWrapInRange` | `include/alpaka/Vec.hpp:853-857` | positions of indices in range stay below the product, so nothing wraps when the product fits |
| `VecIndex.FitsExactly` | `include/alpaka/Vec.hpp:853-857` | the type holds the positions of all indices in range exactly if it holds the product |
| `VecIndex.PrefixInRange` | `include/alpaka/Vec.hpp:853-855` | every intermediate value of the loop stays below the product |
| `VecIndex.SlowestDigitFirst` | `include/alpaka/Vec.hpp:898-904` | splitting off the slowest digit first yields the same digits as splitting off the fastest first |
| `VecIndex.ProductOf` | `include/alpaka/Vec.hpp:522-528` | the product of the components modulo the width |
| `VecIndex.RShrink` | `include/alpaka/Vec.hpp:412-421` | the last elements of the vector |
| `VecIndex.RShrinkFrom` | `include/alpaka/Vec.hpp:444-452` | the last elements of the vector rotated to end at the start index, which counts modulo the dimension, if the sum of both fits the index type or the dimension divides its size |
| `VecIndex.RotationFitsExactly` | `include/alpaka/Vec.hpp:450` | that condition is exact for the whole rotation |
| `IdxMap.DealtOutExactlyOnce` | `include/alpaka/mem/FlatIdxContainer.hpp:197-283` | for strided and contiguous layout and any dimension: the threads are handed exactly the elements of the range, each to one thread at one place in its walk |
| `IdxMap.Deal` | `include/alpaka/mem/FlatIdxContainer.hpp:144-156` | a thread's walk from begin to end, in the index type, yields exactly its share, in order, if the walk fits: contiguous, the positions behind the shares of the lower slots, the remainder going to the first slots, one each; strided, the positions that leave its slot modulo the number of threads |
| `IdxMap.ElementAt` | `include/alpaka/mem/FlatIdxContainer.hpp:144-149` | the element at a position lies as many strides behind the begin, per dimension, as the digits of the position say |
| `IdxMap.SharesAreConsecutive` | `include/alpaka/mem/FlatIdxContainer.hpp:226-236` | a contiguous share begins where the shares of the lower slots end |
| `IdxMap.WalksFitExactly` | `include/alpaka/mem/FlatIdxContainer.hpp:151-156` | the walks of all threads fit exactly if the range plus one stride fits; contiguous walks always fit |
| `IdxMap.WalkOverruns` | `include/alpaka/mem/FlatIdxContainer.hpp:94-97` | a walk that does not fit goes on after its share is over |
| `IdxMap.EveryPositionVisited` | `include/alpaka/mem/FlatIdxContainer.hpp:144-156` | in the index type the walks of all threads visit every position of the range |
| `IdxMap.VisitedOnceExactly` | `include/alpaka/mem/FlatIdxContainer.hpp:144-156` | and no position twice exactly if the range plus one stride fits or the layout is contiguous |
| `IdxMap.EqualShares` | `include/alpaka/onAcc/internal/SimdConcurrent.hpp:95-118` | if the threads divide the range all shares are equally long, so several elements may be taken per check of the end |
| `IdxMap.OneElementEach` | `example/scan/src/scan_improved.hpp:164-167` | with as many elements as threads each thread is handed the same single element whenever it asks |
| `TreeReduce.TreeIsFold` | `include/alpaka/Vec.hpp:664-690` | for an associative operation the midpoint recursion equals the left-to-right loop on every range |
| `TreeReduce.AgreeExactlyWhenAssociative` | `include/alpaka/Vec.hpp:643-690` | the two reductions agree on all vectors exactly if the operation is associative |
| `TreeReduce.LoopReduce` | `include/alpaka/Vec.hpp:674-681` | the loop is the left fold |
| `TreeReduce.TreeIsBalanced` | `include/alpaka/Vec.hpp:643-690` | in the recursive reduction no element passes through more operations than the logarithm of the number of elements, rounded up: the stability the tree is for |
| `TreeReduce.LoopIsDeep` | `include/alpaka/Vec.hpp:674-681` | in the loop the first element passes through all of them |
| `PitchedLayout.EmulatedAlignedMemDescription` | `include/alpaka/api/util.hpp:103-125` | in every dimension and in the widths of the types: every pitch and the size, which are in full, if they fit, the rows inside a dimension times the least multiple of the alignment that holds a row; then elements lie inside the allocation, do not overlap, and rows start aligned; for alignments that divide the size of the index type, as powers of two do, only then |
| `PitchedLayout.PackedSoundExactly` | `include/alpaka/api/util.hpp:107-111` | in one dimension the layout is sound exactly if the allocation fits its type |
| `PitchedLayout.SoundFits` | `include/alpaka/api/util.hpp:118-124` | from two dimensions on a wrapped pitch or allocation always makes two elements overlap or leave the allocation |
| `PitchedLayout.AllocationIsLeast` | `include/alpaka/api/util.hpp:117-124` | with the full pitches an allocation of whole rows is sound exactly if it has all rows |
| `PitchedLayout.PitchedExactly` | `include/alpaka/mem/DataPitches.hpp:34-46` | the pitches computed in the index type are the full ones exactly if the outermost full one fits |
| `PitchedLayout.RowPitchExactly` | `include/alpaka/api/util.hpp:118-119` | the row pitch computed in the index type is the least multiple of the alignment that holds a row exactly if that multiple fits |
| `PitchedLayout.RowPitchIsLeast` | `include/alpaka/api/util.hpp:118-119` | no smaller multiple of the alignment holds a row |
| `PitchedLayout.AddressByRow` | `docs/snippets/dataStorage/datastorage_pitch.cpp:20-25` | the dot product of index and pitches counts whole padded rows plus elements in the row |
| `PitchedLayout.ElementsDisjoint` | `include/alpaka/api/util.hpp:117-124` | different indices in range occupy disjoint bytes |
| `IntegerMath.IntPow` | `include/alpaka/utility.hpp:46-56` | the power modulo the width; the base itself for a negative exponent |
| `IntegerMath.IpowIsPow` | `include/alpaka/utility.hpp:124-139` | squaring computes the power with the absolute exponent, modulo the width |
| `IntegerMath.PowersAgree` | `include/alpaka/utility.hpp:46-56` | fast and slow power agree on all non-negative exponents, wrap-around included |
| `IntegerMath.PowersAgreeExactly` | `include/alpaka/utility.hpp:124-139` | on signed values they agree exactly for exponents from -1 on, bases 0 and 1, and base -1 with odd exponents |
| `NthRoot.NthRootFloor` | `include/alpaka/utility.hpp:59-74` | with sums, powers and the upper end taken in the index type, the function returns what its loop is left with, whenever the loop ends |
| `NthRoot.RootIsFloorExactly` | `include/alpaka/utility.hpp:59-74` | up to half the range the loop ends, and its result is the floor of the root exactly if no probe on the way has a power that wraps to a value not above the input |
| `NthRoot.LargeValues` | `include/alpaka/utility.hpp:63-72` | beyond half the range, from degree two on: if the first probe does not mislead, the loop ends, and its result is the floor of the root exactly if no other probe misleads |
| `NthRoot.MisledLoopRecovers` | `include/alpaka/utility.hpp:63-72` | in 32 bits the square root of 2216779476 comes out right although the first four probes are wrongly accepted, since a wrapped sum takes the loop back |
| `NthRoot.FittingRootIsFloor` | `include/alpaka/utility.hpp:59-74` | a condition on the input alone: the result is the floor of the root if the power of the first probe fits the type |
| `NthRoot.SmallDegreeEndsExactly` | `include/alpaka/utility.hpp:63-72` | degrees up to one return the value itself, and the loop ends exactly for values up to half the range |
| `NthRoot.LargestValueNeverEnds` | `include/alpaka/utility.hpp:64-65` | for the largest value of the type the upper end wraps to zero and the loop does not end |
| `NthRoot.RootIsUnique` | `include/alpaka/utility.hpp:58-60` | the floor of the root is unique |
| `NthRoot.WrappedProbeMisleads` | `include/alpaka/utility.hpp:68-69` | in 32 bits the square root of 131071 comes out wrong |
| `NthRoot.LargestSafeSquareRoot` | `include/alpaka/utility.hpp:68-69` | one less is safe |
| `IntegerMath.RoundsDown` | `include/alpaka/utility.hpp:76-91` | rounding down gives the power of two next to the value from below |
| `IntegerMath.HighestPowerOfTwo` | `include/alpaka/api/util.hpp:127-135` | doubling reaches the same power of two for values below half the range |
| `IntegerMath.StopsExactly` | `include/alpaka/api/util.hpp:129-133` | the doubling loop stops exactly for values below half the range |
| `Limits.HalveLargest` | `include/alpaka/api/util.hpp:82-91` | one round halves the first largest component, not below one |
| `Limits.OnlyFirstLargestHalved` | `include/alpaka/api/util.hpp:82-91` | of all components only the first of the largest changes, to half of it rounded down, or one |
| `Limits.AdjustToLimit` | `include/alpaka/api/util.hpp:74-94` | with product and limit taken in the index type, the result is what the loop is left with, whenever it ends; where both fit it meets the limit, and is not smaller than a third of it unless unchanged |
| `Limits.FittingProduct` | `include/alpaka/api/util.hpp:80-92` | where the product of the input fits the type no product wraps and the loop ends with the adjusted vector |
| `Limits.ResultIsTight` | `include/alpaka/api/util.hpp:72-94` | whether products wrap or not: components stay between one and the input, and three times the product exceeds the limit if anything was shrunk or should have been |
| `Limits.MeetsLimitExactly` | `include/alpaka/api/util.hpp:80-92` | the result meets the limit exactly if no vector met by halving the input has a product above the limit that wraps to one not above it |
| `Limits.FittingIsExact` | `include/alpaka/api/util.hpp:80-92` | where the product of the input fits the type the loop is not misled, and only a product that is zero vanishes |
| `Limits.PositiveLimitEnds` | `include/alpaka/api/util.hpp:80` | with a positive limit the loop ends on every input |
| `Limits.EndsExactly` | `include/alpaka/api/util.hpp:80` | for every input and limit the loop ends exactly if the limit is positive or halving the input makes its product zero in the index type |
| `Limits.WrappedProductMisleads` | `include/alpaka/api/util.hpp:80` | in 32 bits an input above the limit is returned unchanged because its product wraps to zero |
| `Limits.WrappedProductEnds` | `include/alpaka/api/util.hpp:80` | in 32 bits the loop ends on a zero limit and a positive product because a later product wraps |
| `Limits.FactorThreeAttained` | `include/alpaka/api/util.hpp:91` | the factor three cannot be improved |
| `WarpSum.WarpSumKernel` | `docs/snippets/example/190_warp.cpp:37-48` | warps in any order: every output element is the sum of its block of the input |
| `WarpSum.ReduceWarp` | `docs/snippets/example/190_warp.cpp:40-46` | lane 0 ends up with the sum of the warp |
| `WarpSum.LaneZeroHoldsSum` | `docs/snippets/example/190_warp.cpp:41-42` | for every power-of-two warp size and every value returned for lanes outside the warp |
| `WarpSum.FoldOnce` | `docs/snippets/example/190_warp.cpp:41-42` | after offset o lane l below o holds the sum of the lanes congruent to l modulo o |
| `WarpSum.RightExactlyForPowersOfTwo` | `include/alpaka/onAcc/warp.hpp:184-194` | the reduction is right on all inputs exactly for powers of two; the lanes' own value out of range is the counterexample otherwise |
| `Heat.Simulate` | `example/heatEquation2D/src/heatEquation2D.cpp:163-196` | for every number of steps and every square side divisible by the chunk, the current buffer holds the explicit finite-difference scheme iterated on the whole grid, whatever the other buffer held |
| `Heat.StencilIsEulerStep` | `example/heatEquation2D/src/StencilKernel.hpp:11-14` | the kernel's weighted sum is the explicit step of the documented scheme: forward difference in time, central differences in x and y |
| `Heat.StencilKernel` | `example/heatEquation2D/src/StencilKernel.hpp:42-84` | tiles and threads in any order write the stencil to exactly the interior cells |
| `Heat.LoadTile` | `example/heatEquation2D/src/StencilKernel.hpp:52-58` | tile and halo hold the values of the current grid |
| `Heat.ComputeTile` | `example/heatEquation2D/src/StencilKernel.hpp:69-83` | the tile alone yields the global stencil, on the core cells only |
| `Heat.TileOfIsUnique` | `example/heatEquation2D/src/StencilKernel.hpp:42-43` | every interior cell belongs to exactly one tile |
| `Heat.BoundaryKernel` | `example/heatEquation2D/src/BoundaryKernel.hpp:39-56` | for two and more rows: the exact solution at the time of the step on precisely the cells it addresses, nothing else changed |
| `Heat.CoversEdgeExactly` | `example/heatEquation2D/src/BoundaryKernel.hpp:39-56` | with index differences in an unsigned type, these cells are the edge of the grid exactly if it has two rows, or is square with more |
| `Heat.OneRowLeavesGrid` | `include/alpaka/mem/IdxRange.hpp:73-76` | with one row the range of inner rows wraps and rows outside the grid are written |
| `Heat.InitializeBuffer` | `example/heatEquation2D/src/analyticalSolution.hpp:64-78` | the buffer holds the grid at step zero: the exact solution at time zero |
| `Heat.CheckedValue` | `example/heatEquation2D/src/heatEquation2D.cpp:106-107` | the checked value is the sum of the neighbours' weights |
| `Heat.BoundsKeptExactlyWhenStable` | `example/heatEquation2D/src/StencilKernel.hpp:81-82` | the step keeps all bounds exactly if the five weights are non-negative |
| `Heat.AcceptedIsStableExactly` | `example/heatEquation2D/src/heatEquation2D.cpp:106-113` | what the program accepts is stable exactly for time steps that are not negative |
| `Heat.AcceptsExactlyStable` | `example/heatEquation2D/src/heatEquation2D.cpp:106-113` | forward in time the check accepts exactly the steps that keep all bounds |
| `Heat.NegativeStepAccepted` | `example/heatEquation2D/src/heatEquation2D.cpp:106-113` | every negative time step is accepted and unstable |
| `Heat.MaximumPrinciple` | `example/heatEquation2D/src/StencilKernel.hpp:81-82` | with non-negative weights no cell leaves the range of the values that enter: the initial grid and the edges at every step |
| `Heat.DataHasBounds` | `example/heatEquation2D/src/analyticalSolution.hpp:17-21` | whatever the exact solution, the values that enter have bounds |
| `Heat.Example` | `example/heatEquation2D/src/heatEquation2D.cpp:95-196` | returns nothing exactly if the check fails, otherwise the iterated scheme; forward in time, within the bounds of the values that entered; without time steps the check only rejects a positive end time |

## Left out

- Overflow of element values: scan and warp sums are over unbounded integers, while the scan example uses 32-bit integers.
- Memory fences and weak memory: a barrier is sequentially consistent, single accesses are atomic.
- Floating-point rounding: the heat equation is over reals, its exact solution an arbitrary function.
- RecursiveScan.Scan: chunk, threads and pack width are parameters instead of the fixed 2048, 256 and the device's width; threads must be a power of two not above the chunk.
- GridScan.EveryGridInterleaving: the plain kernel; the improved kernel is modelled with its work items in any order, not access by access.
- MachineScan.EveryScanRun: the plain kernel; kernels run one after another, as the queue orders them.
- ImprovedKernel.ScanTiledChunk: the registers of all threads are segments of one array; that a thread gets its segment back in the write-back loop is IdxMap.OneElementEach.
- Arith.DivCeil: the numerator is unbounded; Arith.DivCeilFitsExactly says when that is right.
- IdxMap.DealtOutExactlyOnce: positions are unbounded; IdxMap.VisitedOnceExactly is the statement in the index type. The tiled traversal and the selection of a subset of dimensions are not modelled.
- PitchedLayout.EmulatedAlignedMemDescription: for an alignment that does not divide the size of the index type only one direction is stated; the alignments in use are powers of two.
- VecIndex.RShrinkFrom: the start index is a value of the unsigned type in which the sum is taken; a negative one is the value it converts to.
- NthRoot.LargeValues: where the first probe misleads, the loop may fail to end, end with a wrong value or, as NthRoot.MisledLoopRecovers shows, find the root by chance; no condition simpler than its run is given.
- Limits.AdjustToLimit: the compile-time variant is not modelled.
- CallbackProtocol.RunsAreBounded: before the stop request spurious wake-ups of an idle worker are not bounded, as nothing in the program bounds them.
- Heat.Example: the image dump and the validation against the exact solution are not modelled; the quotient by zero time steps, infinite or not a number, only enters the check.
- Thread affinity, allocation failure and the exception object of a failing task: a task ends normally or with an exception.
- Device selection, queues, buffers, events and the vendor wrappers around them.
- Compile-time dispatch, policies, named access, and the element-wise operations of `Simd`, `SimdMask` and the functors.
