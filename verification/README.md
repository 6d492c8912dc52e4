# Verified models of the White Water core

This project models the parts of the White Water repository whose correctness is easiest to break and
hardest to see, and proves what they promise. `dafny verify dfyconfig.toml` checks all of it.

**The artifact store** (`PathOrder`, `ArtifactWalk`, `Disk`, `Generations`, `Protocol`, `Invariant`,
`ConstructorSteps`, `AttemptSteps`, `StoreTheorems`, `StoreHost`, `FileWrites`, `AttemptListing`,
`ArtifactStore`). The disk has volatile directory entries: until its directory is fsynced, an entry may
come back from a crash with any value it had since the last fsync. The store, its attempts and the writer
lock are a state machine of 24 steps over that disk, in which any hook point may raise and the host may
crash between any two steps. One invariant carries all main results: crash consistency, stability of
references over whole runs, a single writer, and the exact condition under which the run root is durable.
The classes `ArtifactStore` and `ArtifactAttempt` are the source's own methods over a host that runs this
machine, and their contracts say what every outcome, failures included, leaves behind. The host counts the
operations it makes fail, so the contracts say progress too: without such a failure a commit succeeds.

**The coordinator** (`Coordinator`): the resumable run loop over a persisted state whose writes may fail
before or after they take effect, and histories of any number of runs. The executor and the validator keep
logs of what they answered, and what a run completes and returns is tied to them.

**Exact arithmetic** (`Geometry`, `HalfFloat`, `PixelRows`, `NearestArithmetic`, `Quantile`, `Macro`,
`Chain`): the sizing repair over exact reals, the binary16 and binary32 conversions on bit patterns against
a rounding specification of their own (sections 3.4 and 4.3.1 of IEEE 754-2019), row conversion on bytes,
quantiles and macros, and flow chains. The integer channel scaling is proved for every arithmetic whose operations stay within a
relative error of 2^-24 (and an absolute one of 2^-40 when a result underflows); the operations are a
parameter, and rounding to nearest is shown to be such an arithmetic. `Arith` and `Options` are shared helpers.

**Host buffers and workers** (`HostImage`, `Workers`, `Tiling`): host memory is an array of bytes, rows are a
signed number of bytes apart, and zero-copy views, scratch copies, worker blocks, aborts, recoveries and
tiles are all compared by the bytes they leave. Interleavings are schedules of single-row steps.

**Enumeration and encoding** (`Matrix`, `Protobuf`): normalisation and expansion of the matrix, and the
hand-written serializer against a parser written from the Protocol Buffers encoding specification (Base 128
Varints, Length-Delimited Records).

Five results are about where the code falls short of what a reader may expect; each comes with its exact
condition, which a caller can check, and most with a concrete case.

- The walk sorts each directory, the manifest parser compares whole paths. A commit of a tree with a
  directory `a` and a file `a.txt` succeeds and can never be loaded (`ArtifactWalk.ManifestParsesExactly`).
- A constructor fsyncs the parent of the run root only if it created the root. When that fsync fails,
  later constructors accept the root and commits succeed, but a crash may lose all of them
  (`StoreTheorems.LooseRootStays`). The root survives every crash exactly when the constructor that last
  made it got through that fsync or a crash has already spared it (`StoreTheorems.RootDurableExactly`); a
  caller who sees `Open` succeed has a durable root exactly when that call made it or it was durable already.
- The pixel cap is not enforced where it does not apply before rounding (`Geometry.UncappedMayExceed`).
- A refused candidate selection may be refused for another reason once it is permuted, exactly when the
  list is otherwise well formed and mixes a refused with an unknown candidate
  (`Matrix.RefusalForgetsOrderExactly`); accepted selections do not depend on order.
- Likewise the refusal of a quantile's list depends on its order exactly when the percentile is valid and
  the list mixes the two kinds of malformed value (`Quantile.ListForgetsOrderExactly`).

Lemmas carry `{:induction false}` wherever the verifier would otherwise add an automatic induction.

## Model

| member | source | states |
|---|---|---|
| PathOrder.SafeRelativePathExact | tools/bakeoff/artifact_store.py:224-239 | a name is accepted exactly when it is the `/`-joined spelling of safe components, and then yields those components |
| PathOrder.JoinedOrderExact | tools/bakeoff/artifact_store.py:693-703 | for two paths in walk order, the joined strings are in code-point order exactly when no component undercuts the other at the first difference |
| ArtifactWalk.SortDirectory | tools/bakeoff/artifact_store.py:632-632 | sorting a directory lists exactly its names, strictly ascending |
| ArtifactWalk.Visit | tools/bakeoff/artifact_store.py:624-654 | the recursive visit appends exactly the walk of the subtree |
| ArtifactWalk.WalkMembers | tools/bakeoff/artifact_store.py:624-654 | the walk lists a path if and only if the tree holds a file there |
| ArtifactWalk.WalkAscends | tools/bakeoff/artifact_store.py:630-654 | the walk is strictly ascending component by component |
| ArtifactWalk.ParseArtifacts | tools/bakeoff/artifact_store.py:687-720 | the manifest parser accepts exactly the lists of well-formed entries with safe, strictly ascending paths, sizes, digests and modes, and returns them unchanged |
| ArtifactWalk.WalkedListingParses | tools/bakeoff/artifact_store.py:933-946 | a walked listing parses back to itself exactly when it holds no inversion |
| ArtifactWalk.ManifestParsesExactly | tools/bakeoff/artifact_store.py:624-703 | for every tree of safe names, the manifest written from its walk is accepted if and only if no directory holds two file-bearing siblings, one extending the other by a character below `/` |
| ArtifactWalk.ClashExample | tools/bakeoff/artifact_store.py:699-700 | a directory `a` beside a file `a.txt` is such a clash: every entry written for it is sound and the list is out of order, so it is written and then refused |
| Disk.FirmSurvives | tools/bakeoff/artifact_store.py:485-497 | an entry fsynced in a surviving directory survives every crash image |
| Disk.SurvivorHasRoot | tools/bakeoff/artifact_store.py:485-497 | whatever survives a crash lies under surviving directories up to the namespace |
| Generations.SealedLoads | tools/bakeoff/artifact_store.py:1310-1324 | a complete generation loads as exactly the manifest it was sealed with, when and only when the parser accepts that manifest |
| Generations.SealedReads | tools/bakeoff/artifact_store.py:1422-1443 | every file of a loadable complete generation reads back as the bytes whose hash was committed |
| Generations.SealedSurvives | tools/bakeoff/artifact_store.py:485-595 | a complete generation is still complete in every crash image that keeps the run root |
| StoreTheorems.StepKeeps | tools/bakeoff/artifact_store.py:500-595 | every step of constructors, attempts, publications, faults, closes and crashes keeps the store invariant |
| StoreTheorems.CrashConsistency | tools/bakeoff/artifact_store.py:500-595 | cut any run anywhere by a crash: a surviving pointer is one the cell could have had and names a complete generation that loads and reads back file by file |
| StoreTheorems.OldOrNew | tools/bakeoff/artifact_store.py:923-954 | over any run the values a pointer may have after a crash are the old ones and those published by its `os.replace` steps |
| StoreTheorems.CommitIsDurable | tools/bakeoff/artifact_store.py:948-957 | after the last fsync of a commit every crash that keeps the run root leaves the cell pointer naming the sealed generation |
| StoreTheorems.RefStability | tools/bakeoff/artifact_store.py:805-876 | a complete generation loads the same manifest and the same bytes in every later reachable state |
| StoreTheorems.SealedRun | tools/bakeoff/artifact_store.py:1223-1254 | no later step, fault, close or root-keeping crash breaks a sealed generation |
| StoreTheorems.RootDurableExactly | tools/bakeoff/artifact_store.py:1025-1054 | after any run from an empty disk, with any faults and crashes, the run root survives every crash exactly when the constructor that last made it got through its fsync of the parent, or a crash has already spared it |
| StoreTheorems.RootDurableUncrashed | tools/bakeoff/artifact_store.py:1025-1054 | in a crash-free run from a disk without the root: exactly when some step of the run fsynced the parent for the constructor that made it |
| StoreTheorems.RootStaysFirm | tools/bakeoff/artifact_store.py:1025-1054 | once firm, the run root stays firm through every step |
| StoreTheorems.LooseRootStays | tools/bakeoff/artifact_store.py:1025-1054 | a root made by a constructor that failed at its first fsync is never fsynced again, so a crash may still lose everything |
| StoreTheorems.LooseRootExample | tools/bakeoff/artifact_store.py:1025-1054 | such a root is three steps away from an empty disk |
| StoreTheorems.SingleWriter | tools/bakeoff/artifact_store.py:1125-1160 | in every reachable state all usable attempts belong to one store, the holder of the lock |
| StoreTheorems.WritesNeedOpenAttempt | tools/bakeoff/artifact_store.py:805-814 | an entry of an attempt changes only by a step of that attempt while it and its store are open |
| StoreTheorems.PointerNeedsOpenAttempt | tools/bakeoff/artifact_store.py:805-814 | a cell pointer moves only for an open attempt of that cell |
| StoreTheorems.StaleStaysStale | tools/bakeoff/artifact_store.py:1162-1186 | an attempt of a closed or poisoned store never becomes usable again |
| StoreHost.CurrentExactly | tools/bakeoff/artifact_store.py:1331-1355 | in every reachable state the current pointer loads exactly when its manifest parses |
| StoreHost.AtomicFile | tools/bakeoff/artifact_store.py:500-595 | publishes the file, or raises if and only if an operation was made to fail: sealed generations and other files are kept, a pointer moves entirely or not at all, and a published pointer is certain |
| StoreHost.WriteTemporary | tools/bakeoff/artifact_store.py:517-559 | a temporary is created, filled through the write loops and fsynced without moving any pointer, or the attempt is abandoned |
| StoreHost.FillTemporary | tools/bakeoff/artifact_store.py:526-547 | the temporary ends up holding exactly the bytes the write loops wrote, which are the payload or the whole source file |
| StoreHost.PublishTemporary | tools/bakeoff/artifact_store.py:561-579 | link or replace, then the directory fsync: delivered, or abandoned with the cell pointer old or new |
| StoreHost.FinishPublication | tools/bakeoff/artifact_store.py:577-595 | after the replace the temporary is dropped and the directory fsynced, or the attempt is abandoned with the new name in place |
| FileWrites.WriteAll | tools/bakeoff/artifact_store.py:464-474 | however short the writes, all of the payload is appended; only when a write fails is it a prefix and a failure, and a failure is counted |
| FileWrites.CopySource | tools/bakeoff/artifact_store.py:531-547 | chunked copying appends exactly the source; only when a read or write fails is it a prefix and a failure |
| AttemptListing.ListAttempt | tools/bakeoff/artifact_store.py:913-921 | validation lists every file of the attempt, in walk order, with size and digest, and refuses only unsafe names |
| AttemptListing.ListingIsWalk | tools/bakeoff/artifact_store.py:624-654 | that listing is the recursive walk, so the committed manifest is readable exactly when the attempt holds no clash |
| ArtifactStores.ArtifactStore.Open | tools/bakeoff/artifact_store.py:983-1018 | a constructor never disturbs commits and ends ready or shut; it raises an I/O error only if an operation was made to fail, and otherwise only because cells exist without an identity; when it is ready, the run root is durable exactly when this call made it or it was durable before |
| ArtifactStores.ArtifactStore.Close | tools/bakeoff/artifact_store.py:1162-1182 | closing releases the lock and makes every attempt of the store unusable |
| ArtifactStores.ArtifactStore.Begin | tools/bakeoff/artifact_store.py:1256-1290 | an attempt is begun empty under the lock, in the first drawn directory that was free, or refused, or, only if an operation was made to fail, the store is poisoned and the lock released; pointers and generations stay |
| ArtifactStores.ArtifactAttempt.Stage | tools/bakeoff/artifact_store.py:848-911 | staged bytes are in place and no other file changes; without a failing operation the path and what is already there decide the outcome; each refusal and each poisoning is told apart |
| ArtifactStores.ArtifactAttempt.Reconcile | tools/bakeoff/artifact_store.py:822-846 | the recovered reference is this attempt's exactly when the cell pointer names it; an unloadable pointer is a failure |
| ArtifactStores.ArtifactAttempt.Commit | tools/bakeoff/artifact_store.py:923-969 | progress and failure atomicity: an open attempt of an open store commits unless an operation was made to fail; then the attempt closes, and the cell pointer is unchanged and nothing is recovered, or it names exactly this sealed generation and the reference is recovered whenever it loads |
| ArtifactStores.TryCommit | tools/bakeoff/artifact_store.py:923-954 | validate, publish the immutable manifest, publish the cell pointer: done exactly when no operation was made to fail, and otherwise one of the two sides of the replace |
| ArtifactStores.MakeParents | tools/bakeoff/artifact_store.py:356-402 | parents are made one by one, changing nothing but directories |
| ArtifactStores.Climb | tools/bakeoff/artifact_store.py:865-876 | the directories above a staged file are fsynced up to the attempt root, leaving it settled, or the attempt is abandoned |
| Coordinator.ValidateResult | tools/bakeoff/coordinator.py:87-188 | a result passes if and only if it is plain finite JSON, its six identity fields spell the cell, its status is known, and it carries a well-typed failure exactly when it did not pass |
| Coordinator.ValidateJson | tools/bakeoff/coordinator.py:87-127 | a value passes if and only if it is plain JSON with finite numbers all the way down |
| Coordinator.ResultNamesOneCell | tools/bakeoff/coordinator.py:161-188 | a result passes for one cell only |
| Coordinator.StateFile.Load | tools/bakeoff/resume.py:370-396 | loading turns interrupted entries back into pending ones and changes nothing else |
| Coordinator.StateFile.Transition | tools/bakeoff/resume.py:399-430 | a transition changes one entry from the expected state, or nothing; a failed write is one of the two |
| Coordinator.RunCoordinator.Run | tools/bakeoff/coordinator.py:300-342 | a run executes exactly the non-complete cells in plan order up to the first failure; what becomes complete is the very result and reference the executor returned for that cell and the validator accepted, every record rests on an acceptance in this run, and without a failing state file it stops only where the executor failed or something was refused; complete entries are kept and at most one cell is left in progress |
| Coordinator.RunCoordinator.RunCell | tools/bakeoff/coordinator.py:310-338 | one turn validates a complete entry without executing it, or executes, validates and completes it with what was returned and accepted; a failed execution or validation leaves the entry in progress |
| Coordinator.RunCoordinator.CompletedRecords | tools/bakeoff/coordinator.py:252-276 | complete records, each accepted by the validator in this call, are returned without any execution, or the call fails |
| Coordinator.CompleteForever | tools/bakeoff/coordinator.py:300-342 | over any sequence of runs a complete entry never changes |
| Coordinator.NeverRepeated | tools/bakeoff/coordinator.py:300-342 | and its cell is never executed again |
| Coordinator.TodoOnce | tools/bakeoff/coordinator.py:300-342 | no run executes a cell twice |
| Coordinator.ExecutedAgainOnlyAfterStop | tools/bakeoff/coordinator.py:300-342 | a cell executed again in a later run is the one the earlier run stopped at, and that run left it incomplete |
| Geometry.AnalysisDimensions | tools/bakeoff/geometry.py:42-115 | a result is at least 1x1, in the integer range and within a cap that applies, and `cap_violation` is never raised, however the square root is rounded; the source's order of checks |
| Geometry.Repair | tools/bakeoff/geometry.py:84-110 | from any rounded pair of at least 1x1 the repaired pair is no larger on either axis, at least 1x1 and within the cap after at most two corrections |
| Geometry.OverCap | tools/bakeoff/geometry.py:86-107 | over the cap, the axis with the larger relative scale was rounded up, and one pixel less fits |
| Geometry.MinimalRepair | tools/bakeoff/geometry.py:78-107 | with both scaled extents at least 1, an over-cap rounding is repaired by one pixel off one axis, the one of larger relative scale; no second clamp runs |
| Geometry.ThinRepair | tools/bakeoff/geometry.py:86-110 | with an extent below one pixel, that axis is one pixel and the other takes what the cap leaves |
| Geometry.CapAlwaysHolds | tools/bakeoff/geometry.py:78-113 | whatever root is passed in, a result is at least 1x1 and within a cap that applies; the third correction and the violation failure are unreachable |
| Geometry.WithinOnePixel | tools/bakeoff/geometry.py:78-115 | and both results are within one pixel of the exact scaled extents |
| Geometry.Idempotent | tools/bakeoff/geometry.py:42-115 | sizing a capped result again with square pixels and the same cap returns it unchanged, whatever the two roots |
| Geometry.UncappedMayExceed | tools/bakeoff/geometry.py:74-84 | where the cap does not apply, the result exceeds it exactly when the fractional canonical width rounds up past it |
| Geometry.UncappedExample | tools/bakeoff/geometry.py:74-84 | 1.5 canonical pixels within a cap of 1.5 become two pixels |
| Geometry.AcceptedExactly | tools/bakeoff/geometry.py:31-84 | dimensions come back exactly for a positive area under an acceptable cap whose scaled extents round to supported integers; an invalid cap is reported exactly when the cap is |
| Geometry.UncappedIsRounded | tools/bakeoff/geometry.py:31-84 | where the cap does not apply, each extent is rounded half up on its own, to at least one pixel, and nothing is corrected |
| HalfFloat.ShiftRoundsToNearestEven | src/ofx/PixelFormat.cpp:35-43 | for every value and shift the result is the nearest multiple of the power of two, the even one of two |
| HalfFloat.CorrectlyRounded | src/ofx/PixelFormat.cpp:169-208 | every binary32 number that is not a NaN becomes the nearest binary16 number, ties to even, through gradual underflow, carry and overflow, with its sign |
| HalfFloat.NearestMonotone | src/ofx/PixelFormat.cpp:169-208 | the nearest pattern follows the value, so correct rounding determines the result |
| HalfFloat.OverflowsFromMidpoint | src/ofx/PixelFormat.cpp:185-188 | the result is infinite exactly from 65520 on |
| HalfFloat.Monotone | src/ofx/PixelFormat.cpp:169-208 | narrowing never reverses the order of two numbers |
| HalfFloat.NaNStaysNaN | src/ofx/PixelFormat.cpp:175-183 | a NaN stays a NaN of the same sign, and nothing else becomes one |
| HalfFloat.WideningIsExact | src/ofx/PixelFormat.cpp:148-167 | widening keeps sign and value exactly; infinities and NaNs stay what they are |
| HalfFloat.RoundTrip | src/ofx/PixelFormat.cpp:148-208 | widening then narrowing restores every 16-bit word, payloads and signed zeros included |
| PixelRows.StoredLoad | src/ofx/PixelFormat.cpp:85-101 | the bytes of a stored channel are determined by the value loaded from them |
| PixelRows.IntegerRoundTrip | src/ofx/PixelFormat.cpp:48-63 | a byte or short read and written back is itself under any rounding within the error bound in each operation |
| NearestArithmetic.NearestIsFaithful | src/ofx/PixelFormat.cpp:48-63 | an arithmetic that rounds every operation to nearest is one of those the round trip is proved for |
| PixelRows.CastIsDefined | src/ofx/PixelFormat.cpp:51-63 | the final cast to an unsigned type is always in range |
| PixelRows.CellRoundTrip | src/ofx/PixelFormat.cpp:227-289 | every stored value of every depth survives reading and writing |
| PixelRows.ReadHostRow | src/ofx/PixelFormat.cpp:227-249 | expands exactly the row, writes nothing outside it, and does nothing for an unknown layout or an empty row |
| PixelRows.WriteHostRow | src/ofx/PixelFormat.cpp:251-289 | packs exactly the row, writes no byte outside it, and does nothing for an unknown layout or an empty row |
| PixelRows.ReadPixel | src/ofx/PixelFormat.cpp:106-139 | one pixel is expanded with black colour or opaque alpha where the host has none |
| PixelRows.ReadChannels | src/ofx/PixelFormat.cpp:106-139 | in a row of any length and depth red, green, blue and alpha are the host channels in this order, alpha is 1 where the host has none, and colour is 0 where it has only alpha |
| PixelRows.WrittenChannels | src/ofx/PixelFormat.cpp:251-289 | whatever a float row holds, each channel the host keeps is the conversion of that channel of that pixel, or of its alpha where the host keeps only that |
| PixelRows.LowByteFirst | src/ofx/PixelFormat.cpp:85-101 | the bytes of a channel spell its bit pattern low byte first |
| PixelRows.ReadAsFraction | src/ofx/PixelFormat.cpp:48-59 | a byte or short is read as its fraction of the largest one, within the error the arithmetic allows |
| PixelRows.WrittenAsNearest | src/ofx/PixelFormat.cpp:51-63 | a float is written as the nearest byte or short up to that error, saturating at both ends, a NaN as 0 |
| PixelRows.RowRoundTrip | src/ofx/PixelFormat.cpp:227-289 | reading a row of any length, depth and layout and writing it back restores every byte |
| PixelRows.ReadThenWrite | src/ofx/PixelFormat.cpp:227-289 | the two converters in sequence copy a row byte for byte and touch nothing else |
| Quantile.LinearQuantile | tools/bakeoff/metrics.py:41-72 | returns the interpolated quantile of the finite samples, or refuses the percentile, the first malformed value or an empty list |
| Quantile.SortedAt | tools/bakeoff/metrics.py:67-67 | a sorted position is at most t exactly when more samples than that are |
| Quantile.SortForgetsOrder | tools/bakeoff/metrics.py:67-67 | sorting depends on the multiset only |
| Quantile.SortDominates | tools/bakeoff/metrics.py:67-67 | sample-wise dominance up to d carries to every sorted position |
| Quantile.QuantileForgetsOrder | tools/bakeoff/metrics.py:41-72 | the quantile of finite samples is permutation invariant |
| Quantile.QuantileBounded | tools/bakeoff/metrics.py:41-72 | it lies within any bounds of the samples |
| Quantile.QuantileMonotone | tools/bakeoff/metrics.py:68-72 | it is monotone in the percentile |
| Quantile.QuantileLipschitz | tools/bakeoff/metrics.py:41-72 | changing every sample by at most d changes it by at most d |
| Quantile.ListForgetsOrderExactly | tools/bakeoff/metrics.py:41-72 | permuting a list with dropped and malformed values keeps the result, refusals included, exactly when it does not mix the two kinds of malformed value or the percentile is refused first |
| Quantile.ListBoundedAndMonotone | tools/bakeoff/metrics.py:41-72 | with dropped values too, the quantile stays within the bounds of the finite ones and rises with the percentile |
| Quantile.ListLipschitz | tools/bakeoff/metrics.py:41-72 | moving every finite value by at most d keeps a refusal and moves a quantile by at most d |
| Quantile.StraightLine | tools/bakeoff/metrics.py:68-72 | between two sorted positions the quantile moves along the straight line through their values |
| Quantile.OnSomeLine | tools/bakeoff/metrics.py:68-69 | every percentile of more than one sample lies between two such positions |
| Quantile.EvenMedian | tools/bakeoff/metrics.py:68-72 | the median of an even number of samples is the mean of the two middle ones |
| Quantile.Mirror | tools/bakeoff/metrics.py:41-72 | negating every sample and counting the percentile from the other end negates the quantile |
| Macro.MacroAggregate | tools/bakeoff/metrics.py:796-828 | accepts exactly well-formed samples and returns shot medians, category means and partition macros |
| Macro.AggregateCategory | tools/bakeoff/metrics.py:809-821 | one category's medians and their mean |
| Macro.MacroLipschitz | tools/bakeoff/metrics.py:796-828 | moving every sample by at most d moves no category mean and no partition macro by more |
| Macro.CategoryLipschitz | tools/bakeoff/metrics.py:809-821 | and no shot median |
| Macro.MacroBounded | tools/bakeoff/metrics.py:796-828 | a macro lies within any bounds of its samples |
| Macro.ShotMedianSplits | tools/bakeoff/metrics.py:809-816 | at least half of the samples of a shot lie at or below its median and at least half at or above it |
| Macro.ShotsWeighEqually | tools/bakeoff/metrics.py:816-821 | moving one shot median moves its category mean by exactly its share, whatever its number of samples |
| Macro.CategoriesWeighEqually | tools/bakeoff/metrics.py:821-828 | and one category mean the macro of its partition |
| Chain.Sample | tools/bakeoff/metrics.py:336-386 | the corner loop computes the weighted sum, skips zero weights, and reports the first bad corner |
| Chain.SampledExactly | tools/bakeoff/metrics.py:336-386 | a point can be sampled exactly when it is on the closed grid and every corner with weight is finite, and is out of bounds exactly when it is not on the grid |
| Chain.SamplingIsExact | tools/bakeoff/metrics.py:336-386 | bilinear sampling reproduces an affine flow exactly everywhere on the closed grid |
| Chain.SampledBetween | tools/bakeoff/metrics.py:351-386 | whatever the four flows around a point are, they are mixed along the two rows and then between them |
| Chain.SamplingAtGridPoint | tools/bakeoff/metrics.py:351-386 | at a grid point only the cell itself matters |
| Chain.Follow | tools/bakeoff/metrics.py:660-669 | the link loop advances a point until it leaves a grid |
| Chain.ThenApplies | tools/bakeoff/metrics.py:660-669 | composed affine displacements act as one after the other |
| Chain.ChainIsExact | tools/bakeoff/metrics.py:655-686 | for affine links the loop ends at the exact composition as long as that stays inside, and drops the pixel otherwise |
| Chain.ChainDriftPx | tools/bakeoff/metrics.py:631-686 | returns the mean of the measured drifts in row-major order, or the first refusal |
| Chain.ChainDriftIsZero | tools/bakeoff/metrics.py:631-686 | drift of affine links against their composed truth is 0, or nothing is measurable |
| Chain.ChainDriftIsNorm | tools/bakeoff/metrics.py:631-686 | links that miss the truth by one and the same vector drift by exactly the norm of that vector, or nothing is measurable |
| Chain.ForwardBackwardResidualPx | tools/bakeoff/metrics.py:591-628 | returns the mean residual over the mask, or the first refusal |
| Chain.ForwardBackwardIsDrift | tools/bakeoff/metrics.py:591-686 | going forward and back is the drift of a two-link chain against a truth of zeros, refusals included |
| HostImage.BorrowedIsConverted | src/ofx/HostImage.cpp:104-120 | floats read in place are those the row converter would have produced |
| HostImage.DirectIsPacked | src/ofx/HostImage.cpp:167-195 | floats written in place are the bytes the row converter would have written |
| HostImage.HostSourceImage.Attach | src/ofx/HostImage.cpp:82-121 | borrowed or converted, every row of the view is the host row as float RGBA, for every bounds and signed row stride |
| HostImage.HostDestinationImage.Attach | src/ofx/HostImage.cpp:131-179 | attaches to the intersection of window and bounds, directly or with scratch, whatever was attached before, and refuses only unknown layouts |
| HostImage.HostDestinationImage.WriteBackRows | src/ofx/HostImage.cpp:185-195 | paints exactly the clipped row range from scratch; leaves every byte of a direct view alone, even with scratch left over from an earlier attachment |
| HostImage.HostDestinationImage.RenderRows | src/ofx/OpticalFlowPlugin.cpp:51-56 | rendering a block and writing it back paints its rows and nothing else, on either path |
| HostImage.PaintedOnce | src/ofx/HostImage.cpp:131-195 | what was painted determines every byte of host memory |
| HostImage.ZeroCopyRefinesCopy | src/ofx/HostImage.cpp:131-195 | direct and scratch rendering of the same rows from equal bytes leave equal bytes |
| HostImage.OnlyTheWindow | src/ofx/HostImage.cpp:138-147 | every painted byte belongs to a pixel inside both window and bounds |
| HostImage.LaidOut | src/ofx/HostImage.cpp:49-55 | the first pixel of the bounds is at the host address, pixels of a row follow one another, and rows are the signed stride apart |
| HostImage.WindowApart | src/ofx/HostImage.cpp:49-55 | rows of the window share no byte, whatever the sign of the stride |
| Workers.BlocksDisjoint | src/ofx/OpticalFlowPlugin.cpp:42-49 | no row belongs to two workers |
| Workers.BlocksCover | src/ofx/OpticalFlowPlugin.cpp:42-49 | every row belongs to a worker |
| Workers.BlocksEven | src/ofx/OpticalFlowPlugin.cpp:42-49 | no block is longer than it has to be |
| Workers.MultiThreadFunction | src/ofx/OpticalFlowPlugin.cpp:42-57 | a worker paints a prefix of its block that ends at a chunk boundary or at the last row, and touches nothing else |
| Workers.FinishesUnaborted | src/ofx/OpticalFlowPlugin.cpp:51-57 | without an abort the prefix is the whole block |
| Workers.StopsAtFirstAbort | src/ofx/OpticalFlowPlugin.cpp:51-57 | a worker stops at the first check answered with an abort: every chunk before it is done and none after |
| Workers.StepKeeps | src/ofx/OpticalFlowPlugin.cpp:42-57 | every step of any worker keeps finished rows rendered, untouched rows as they were, and rendered rows in the view |
| Workers.AbortLeavesPrefixes | src/ofx/OpticalFlowPlugin.cpp:42-57 | in every interleaving, with any aborts, stopped workers leave finished prefixes of whole chunks |
| Workers.AbortIsFinal | src/ofx/OpticalFlowPlugin.cpp:51-57 | in every interleaving a worker told to abort is done at that row, and the rest of its block stays as it was |
| Workers.UnabortedIsComplete | src/ofx/OpticalFlowPlugin.cpp:162-167 | in every interleaving without an abort every row is rendered |
| Workers.ParallelIsSerial | src/ofx/OpticalFlowPlugin.cpp:162-167 | so any number of workers in any order do what one does alone |
| Workers.RecoveryCompletes | src/ofx/OpticalFlowPlugin.cpp:549-556 | after any partial run one worker alone completes the output up to a chunk boundary, or all of it if not aborted; below that every row is rendered or untouched |
| Workers.RecoverSerially | src/ofx/OpticalFlowPlugin.cpp:549-556 | the recovery stops where the host aborts it, having painted the rows above; if it is not aborted, host memory is as if nothing had failed |
| Workers.PaintedJoin | src/ofx/OpticalFlowPlugin.cpp:51-56 | painting a chunk after a chunk paints both |
| Tiling.WriteStRow | src/ofx/OpticalFlowPlugin.cpp:124-152 | the pixel loop writes the row, and every pixel holds the one place in the source it stands for, or nothing in relative mode |
| Tiling.StPixelPlaces | src/ofx/OpticalFlowPlugin.cpp:130-147 | u and v name the centre of the pixel in the source, v counted from the top for a top-left origin |
| Tiling.LocatedOnce | src/ofx/OpticalFlowPlugin.cpp:134-141 | no other pair does |
| Tiling.LocatedInside | src/ofx/OpticalFlowPlugin.cpp:134-141 | inside the source both lie strictly between 0 and 1 |
| Tiling.LocatedNext | src/ofx/OpticalFlowPlugin.cpp:134-141 | from a pixel to the next u rises by one source width, and v rises or falls by one source height |
| Tiling.RenderWindow | src/ofx/OpticalFlowPlugin.cpp:544-556 | attaching to a window and rendering its rows pixel by pixel leaves host memory as one render of that window |
| Tiling.PaintedIsFilled | src/ofx/OpticalFlowPlugin.cpp:124-152 | a rendered window fills exactly its pixels with their global content |
| Tiling.PixelsApart | src/ofx/HostImage.cpp:49-55 | two pixels of an image share no byte |
| Tiling.FilledMore | src/ofx/OpticalFlowPlugin.cpp:124-152 | filling windows one after another fills their union |
| Tiling.TilesAreOneRender | src/ofx/OpticalFlowPlugin.cpp:124-152 | any covering sequence of windows, overlapping or not, leaves exactly the bytes of one full render |
| Tiling.RenderTiles | src/ofx/OpticalFlowPlugin.cpp:124-152 | rendering the tiles one by one in place ends with those bytes |
| Matrix.OrderedIdsForgetsOrder | tools/bakeoff/matrix.py:99-115 | permuting a requested list gives the same ids or the same refusal |
| Matrix.OnePick | tools/bakeoff/matrix.py:99-115 | only one list holds exactly the requested ids in the order of the available ones |
| Matrix.CandidatesForgetOrder | tools/bakeoff/matrix.py:118-156 | permuting the candidates keeps acceptance and the selection |
| Matrix.RefusalForgetsOrderExactly | tools/bakeoff/matrix.py:118-156 | permuting the candidates keeps the whole result, the reported refusal included, exactly when the list itself is faulty or does not mix a refused with an unknown candidate |
| Matrix.RefusalDependsOnOrder | tools/bakeoff/matrix.py:127-131 | the smallest case: two candidates refused for two reasons in the two orders |
| Matrix.CandidateOrders | tools/bakeoff/matrix.py:217-285 | exactly the admitted and exactly the refused candidates, both in protocol order, or the first fault of the entries |
| Matrix.ProviderSelection | tools/bakeoff/matrix.py:350-429 | exactly the requested providers in protocol order with their loads, idle before live_flame, or the first fault |
| Matrix.FinalCoverage | tools/bakeoff/matrix.py:547-573 | the coverage check finds both targets among the selected shots or refuses |
| Matrix.BuildMatrix | tools/bakeoff/matrix.py:576-643 | the plan: every axis holds exactly what was requested in the order of the protocol or the corpus, and the refused candidates are listed in protocol order; every refusal in the source's order |
| Matrix.CrossAt | tools/bakeoff/matrix.py:637-642 | a pair sits at its mixed-radix index in the product of two axes |
| Matrix.PlanEnumerates | tools/bakeoff/matrix.py:628-643 | every tuple of selected values is the cell at its mixed-radix index, and no cell repeats |
| Matrix.PlanKeepsOrder | tools/bakeoff/matrix.py:576-643 | every axis of a plan holds exactly the requested values in the order of the protocol or the corpus, with idle before live_flame |
| Matrix.PlanAcceptsExactly | tools/bakeoff/matrix.py:576-643 | a plan is made exactly when every axis is well formed and selectable and the selected values support one another |
| Matrix.DigestNamesPlan | tools/bakeoff/matrix.py:621-643 | two plans have the same digest exactly when their selections are the same, and then the same cells |
| Matrix.PlanForgetsOrder | tools/bakeoff/matrix.py:576-643 | permuting any list of a selection, host loads included, keeps acceptance, selector, digest and cells |
| Matrix.FinalPlanCovers | tools/bakeoff/matrix.py:547-573 | a final plan has FHD and UHD cells at mp2 on CUDA under both loads for every selected candidate and conditioning |
| Matrix.PlanRespectsConstraints | tools/bakeoff/matrix.py:432-544 | no cell asks for a provider, cap or shot size its candidate or provider does not support |
| Protobuf.WriteVarint | tools/ortprobe/make_model.py:24-31 | the loop writes the base-128 groups of the number |
| Protobuf.VarintRoundTrip | tools/ortprobe/make_model.py:24-31 | reading a written varint gives back the number, whatever follows |
| Protobuf.VarintPrefixFree | tools/ortprobe/make_model.py:24-31 | no encoding is a prefix of another |
| Protobuf.VarintMinimal | tools/ortprobe/make_model.py:24-31 | no byte string read as n is shorter, and one of the same length is the encoding |
| Protobuf.LastGroupUsed | tools/ortprobe/make_model.py:24-31 | the last byte ends the varint and is not zero unless the number is |
| Protobuf.RecordSplits | tools/ortprobe/make_model.py:42-45 | a length-delimited record is split exactly where it ended |
| Protobuf.FieldRoundTrip | tools/ortprobe/make_model.py:34-45 | every finite tree of fields is recovered from its bytes followed by any suffix |
| Protobuf.FieldsRoundTrip | tools/ortprobe/make_model.py:34-45 | and so is every message |
| Protobuf.ValueInfoParses | tools/ortprobe/make_model.py:48-55 | name, element type and shape are recovered from a value info |
| Protobuf.BuildParses | tools/ortprobe/make_model.py:58-78 | parsing the emitted model recovers the whole intended tree |
| Protobuf.ProbeModelMeans | tools/ortprobe/make_model.py:58-78 | parsed back, the model adds the two 1x4 rows of element type 1, named a and b, into c, under IR version 8 and operator set 13 |

## Left out

- Model exporters and manifest checkers under `models/`, the evaluator, the native runtime adapter, EXR and frame reading, corpus generation, flow parameters, host quirks and clip plumbing: runtime boundaries or flat field comparisons.
- `tools/bakeoff/measurement.py` and `tools/bakeoff/conditioning.py`: they would only add easy members beside geometry and quantiles.
- `dense_metrics`, `dense_score`, `nonfinite_fraction`, `landmark_metrics`, `visible_warp_residual` and `repeated_run_p99_delta_px`: flat folds over the sampling and quantile functions modelled here.
- Parsing of untyped JSON and Python values: lists, numbers and strings arrive typed, so shape refusals (`flow_shape`, `bool_value` outside quantiles, `grid_shape`) are not modelled; a non-finite number is a case of its own.
- Store: SHA-256 and `canonical_sha256` are injective constructors; JSON text, the syntax of hex digests (any predicate to the parser), file modes, symbolic-link and path-swap checks, surrogate checks and the identity's own temporary file are not modelled; a partly written file has torn contents. `_ensure_directory` above the run parent, `stage_file`'s checks that its source is a regular file, `load_all` and `artifact_path` are left out.
- Store: operations of one writer are serial; constructors and closes of other stores interleave with them at every step.
- ArtifactStores.ArtifactStore.Open: the run root is named by the identity's hash, so its identity file is taken to be one the store wrote; a foreign or malformed identity file is not modelled.
- ArtifactStores.ArtifactStore.Begin: the drawn directory names are any sequence that has a free one, without which the source's loop would not end.
- Coordinator.ValidateResult: a value that contains itself and an object with a key that is no string are not modelled.
- Coordinator.RunCoordinator.Run: the executor, the artifact validator and the state file may answer or raise anything at each call; the reasons of refusals are not told apart.
- Geometry.AnalysisDimensions: floats are exact reals, and the square root is a parameter: any number where only the cap matters, pinned down by its square where the exact scale does.
- HalfFloat.WideningIsExact: hardware quieting of signalling NaNs; the product with 2^-24 is taken as the exactly representable number it is.
- PixelRows.ToUnsigned: the cast of an out-of-range float is undefined in the source; `PixelRows.CastIsDefined` shows it does not occur.
- Macro.MacroAggregate: which refusal is reported first is not stated, and the flat record form and duplicate-shot refusal are not modelled.
- Chain.Sample: the single-channel form, which is the same loop on one component, is not modelled.
- Chain.ChainDriftPx: `hypot` is any function of two reals; that it is 0 at the origin is required only where drift is proved zero.
- HostImage.HostDestinationImage.Attach: host memory is little-endian and the bounds of an image are taken to lie in its memory, with rows that do not overlap.
- Workers: the resampler that fills a copied row, and the host's thread suite itself; a renderer's row contents are given, and a schedule is any sequence of worker steps.
- Tiling.WriteStRow: doubles are exact reals and the cast to float is any function.
- Matrix.BuildMatrix: how a shot is sized under a cap is a parameter, sized in `Geometry`; partitions of the corpus are one list of shots.
- Protobuf: only the two wire types the serializer writes; which fields are messages is given by a schema, because the wire format does not say. Names are ASCII.
