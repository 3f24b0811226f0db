# sharedmem: a verified model of its partitioner, pool and parallel argsort

sharedmem is a small Python library for data-parallel work on numpy arrays. A `Pool` of
worker processes or threads runs a work function over a sequence. `split` and
`Pool.zipsplit` cut argument bundles into per-task chunks with `array_split`. `argsort`
combines the pool with a power-of-two merge tree to argsort a large array. This project
models that core in Dafny, in five modules:

- `Wrappers`: `Option` and `Result`. `None` and the exceptions the code catches become these values.
- `PowerOfTwo`: `__round_to_power_of_two`. Python's `|`, `&` and `>>` on non-negative
  integers are written out on `nat`. The bit-smearing steps are proved to round up to the
  smallest power of two.
- `ArraySplit`: `array_split` with an integer section count. An imperative model computes
  the division points and slices. It is proved to yield the declarative pieces. The pieces
  have balanced sizes, larger ones first, and concatenate back to the input.
- `Partition`: module-level `split`, `Pool.split` and `Pool.zipsplit`. An argument is
  either broadcast (a tuple or scalar, repeated for every chunk) or sliceable. The model
  covers the chunk-count policy, the length-mismatch `ValueError`, the `IndexError` when
  nothing is sliceable, and `zip` as a transpose.
- `PoolMap`: `Pool.map` and `map_debug`. The worker loop (`slave`) becomes a sequence of
  moves over the task queue S and the result queue Q, driven by a schedule of worker
  ranks. Any interleaving can be expressed this way. The master's collection loop reads
  exactly `len(sequence)` records. The result is assembled unordered, or by index through
  a heap. The model proves:
  - the map raises exactly when some item's work raises an `Exception`;
  - the exception carries the number of failures read from Q, between 1 and
    `min(np, #raising items)`, and the trace of the first failure read, which belongs to a
    raising item;
  - a worker that has raised runs no further work: it puts `(None, None)` for every later
    item it takes;
  - otherwise it returns one callback-applied value per item, each exactly once, in index
    order when `ordered`.
- `ParallelSort`: `argsort`. The chunk layout comes from `array_split`, `sublengths` and
  `suboffsets`. The local stage argsorts each chunk into its slice of `arg1`. The merge
  loop swaps between two `array` buffers, keeping `suboffsets[::2]` and summing pairs of
  `sublengths`. The result is proved to be a permutation of the positions of the data
  that sorts its keys.

Code written as loops over mutable state is modelled as methods with loop invariants:
- `SliceAll`, `ComputeDivPoints`, `SliceableLengths` and `ChunkEach`;
- `RunWorkers`, `Collect` and `PopInOrder`;
- `SortChunks`, `MergeRound` and `MergeTree` (the merges write into arrays).

The pure parts are functions with lemmas.

Points where the code behaves in a way one might not expect; the model follows the code:
- A dead worker puts `(None, None)` on Q. This record carries no item index (`Dead`).
- `map_debug` does not apply the callback.
- The local argsort of a chunk, stored into its slice of `arg1`, yields positions relative to
  the chunk, not offset by the chunk's start. For the merge to be correct it must read
  the second run's positions shifted by the first run's length and emit positions
  relative to the merged run. `MergeRuns` and `MergePair` are modelled that way.
- Module-level `split` without `nchunks` and `chunksize` uses twice the CPU count. Only
  `Pool.split` uses the worker count.
- The chunk count derived from a chunk size uses Python 2 division on a numpy integer. It floors, and
  division by zero gives 0. A result of 0 is raised to 1.

## Model

| member | source | states |
|---|---|---|
| PowerOfTwo.RoundToPowerOfTwo | src/__init__.py:517-527 | 0 maps to 0; a power of two maps to itself; for 0 < i <= 2^64 the result is a power of two r with i <= r < 2i |
| PowerOfTwo.RoundIsSmallest | src/__init__.py:517-527 | the rounded value is no larger than any power of two p >= i: it is the smallest power of two not below i |
| PowerOfTwo.SingleBitTest | src/__init__.py:519 | for i > 0, `i & (i - 1) == 0` holds exactly when i is a power of two |
| PowerOfTwo.SmearCase | src/__init__.py:519-527 | when `i & (i - 1)` is non-zero, i is not a power of two, and smearing i - 1 then adding 1 gives a power of two in [i, 2i) |
| PowerOfTwo.SmearRoundsUp | src/__init__.py:520-527 | for 0 < x < 2^64 the six or-shift steps plus one give a power of two in (x, 2x] |
| PowerOfTwo.ShrSplit | src/__init__.py:521-526 | `Shr(x, k)` (`x >> k`) is the floor quotient of x by 2^k: `Shr(x, k) * 2^k <= x < (Shr(x, k) + 1) * 2^k` |
| PowerOfTwo.ShrShr | src/__init__.py:521-526 | two right shifts by a and b are one shift by a + b |
| PowerOfTwo.OrSplit | src/__init__.py:521-526 | `Or` (`|`) works digit by digit: on numbers cut at bit k it ors the high parts and the low parts separately |
| PowerOfTwo.OrZero | src/__init__.py:521-526 | or-ing with 0 leaves a number unchanged |
| PowerOfTwo.OrBelow | src/__init__.py:521-526 | or-ing two numbers below 2^k stays below 2^k |
| PowerOfTwo.OrOnes | src/__init__.py:521-526 | or-ing a number below 2^k with 2^k - 1 (all ones) gives 2^k - 1, on either side |
| PowerOfTwo.AndSelf | src/__init__.py:519 | `And` (`&`) of a number with itself is that number |
| PowerOfTwo.WidthBounds | src/__init__.py:521-527 | for x > 0, `Width(x)` (the bit length) is the w with 2^(w-1) <= x < 2^w |
| PowerOfTwo.SmearStep | src/__init__.py:521-526 | one or-shift step by the current run of ones doubles it (up to the bit length) and keeps the leading bit |
| PowerOfTwo.SmearFills | src/__init__.py:521-526 | below 2^64 `Smear` (the six steps) sets every bit under the leading one: the result plus one is 2^bit_length(x) |
| PowerOfTwo.SmearStepsFill | src/__init__.py:521-526 | after n steps of `SmearSteps` (shifts 1, 2, ..., 2^(n-1)) the top min(2^n, w) bits below the leading one are ones |
| PowerOfTwo.PowersOfTwoApart | src/__init__.py:527 | two distinct powers of two are at least a factor 2 apart |
| ArraySplit.Split | src/__init__.py:619-666 | ValueError with the source's message exactly when the section count is not positive; otherwise the list of the declarative pieces |
| ArraySplit.ComputeDivPoints | src/__init__.py:654-658 | the running sums of `[0] + extras*[q+1] + (n-extras)*[q]`, one per section boundary |
| ArraySplit.SliceAll | src/__init__.py:660-666 | the slicing loop yields piece k = the slice between division points k and k+1, for every k |
| ArraySplit.DivPointClosed | src/__init__.py:654-658 | division point k equals k*q + min(k, extras) |
| ArraySplit.DivPointBounds | src/__init__.py:654-658 | division points are non-decreasing, at most the total, and the last one is the total |
| ArraySplit.PieceSizes | src/__init__.py:654-657 | there are n pieces; the first `total % n` hold `total / n + 1` elements, the rest `total / n` |
| ArraySplit.PiecesPrefix | src/__init__.py:658-664 | the first k pieces concatenated are the input up to division point k |
| ArraySplit.PiecesConcat | src/__init__.py:660-666 | all pieces concatenated in order give back the input |
| Partition.FloorDiv | src/__init__.py:463 | Python 2 division on integers: the floor quotient for a non-zero divisor of either sign, 0 for a zero divisor |
| Partition.ChunkCount | src/__init__.py:459-464 | nchunks when given; 2*cpus when neither is given; at least 1 with a positive chunk size; 1 with chunk size 0 |
| Partition.ChunkCountBySize | src/__init__.py:462-464 | with only a chunk size c > 0: one chunk when the length is below c, else the number n of whole c-chunks (n*c <= L < (n+1)*c) |
| Partition.Lengths | src/__init__.py:445-454 | `L`: at most one length per argument |
| Partition.LengthsFromSliceable | src/__init__.py:445-454 | every entry of `L` is the length of some sliceable argument |
| Partition.SliceableInLengths | src/__init__.py:445-454 | every sliceable argument's length is an entry of `L` |
| Partition.Expected | src/__init__.py:436-474 | the declarative outcome of split: the length-mismatch ValueError exactly when neighbouring lengths differ; IndexError exactly when they agree and no argument is sliceable; on success one list per argument, each of `ChunkCount(L[0], nchunks, chunksize, cpus)` chunks, at least one |
| Partition.Split | src/__init__.py:436-474 | the split method returns exactly the declarative outcome `Expected` (errors included) |
| Partition.SliceableLengths | src/__init__.py:445-454 | the loop over the arguments collects the lengths of the sliceable ones, in order |
| Partition.NoDiffCheck | src/__init__.py:455 | true exactly when no two neighbouring lengths differ |
| Partition.ChunkEach | src/__init__.py:466-474 | a non-positive chunk count gives the array_split ValueError; otherwise every argument is repeated or cut into n chunks |
| Partition.NoDiffAllEqual | src/__init__.py:455-456 | `numpy.diff(L).any()` is false exactly when all lengths are equal |
| Partition.SplitErrors | src/__init__.py:454-474 | differing sliceable lengths give ValueError; no sliceable argument gives IndexError; with one shared length the split succeeds exactly when the chunk count is positive |
| Partition.MismatchError | src/__init__.py:455-456 | two sliceable arguments of different lengths give the length-mismatch ValueError |
| Partition.NoneSliceable | src/__init__.py:454-457 | with every argument broadcast, `L[0]` raises IndexError |
| Partition.AgreedLength | src/__init__.py:457-474 | all sliceable arguments of one length: success exactly when the chunk count is positive |
| Partition.SplitChunks | src/__init__.py:459-474 | on success every argument has exactly `ChunkCount(L[0], nchunks, chunksize, cpus)` chunks (nchunks when given, else max(1, L[0] div chunksize), else 2*cpus), at least one; broadcast ones repeat the value; sliceable ones are cut into balanced parts that concatenate back to the argument |
| Partition.CpusUnused | src/__init__.py:459-461 | the CPU count matters only when neither nchunks nor chunksize is given |
| Partition.PoolSplit | src/__init__.py:222-225 | Pool.split is split with chunk count `PoolChunks(np, nchunks, chunksize)`, that is, the worker count when neither nchunks nor chunksize is given and nchunks unchanged otherwise, for any CPU count |
| Partition.Zip | src/__init__.py:220 | `zip(*columns)`: as many tuples as the shortest column, tuple k holding entry k of every column in order |
| Partition.PoolZipSplit | src/__init__.py:219-220 | Pool.zipsplit is the transpose of Pool.split, errors passed through |
| Partition.ZipSplitTuples | src/__init__.py:219-220 | after a successful split, zip loses nothing: one tuple per chunk, tuple k holding chunk k of every argument |
| PoolMap.StepsStart | src/__init__.py:278-284 | S holds indices 0..L-1 then np sentinels, every worker idle: the protocol invariant holds |
| PoolMap.StepTake | src/__init__.py:254-263 | an idle worker taking an index keeps the invariant and holds that index |
| PoolMap.StepStop | src/__init__.py:254-257 | an idle worker taking a sentinel stops, keeping the invariant |
| PoolMap.StepFinish | src/__init__.py:258-273 | a worker finishing its item puts exactly one record on Q (dead, success or failure) and keeps the invariant |
| PoolMap.RecordsFinish | src/__init__.py:258-272 | the record put is faithful to the work's outcome, a worker is dead exactly once it has put a failure, and a worker puts only dead records after its failure |
| PoolMap.Answer | src/__init__.py:258-272 | the record a worker puts for item i: dead exactly when the worker is dead; otherwise faithful to work(item i), a failure exactly when the work raises |
| PoolMap.Move | src/__init__.py:253-273 | one move of the worker loop keeps the invariant and strictly shrinks the remaining work; finishing appends exactly the worker's `Answer` for its item and marks the worker dead exactly when that answer is a failure; taking changes neither Q nor the dead flags |
| PoolMap.StepsDone | src/__init__.py:283-313 | once all workers have stopped, Q holds exactly one record per item, each item answered once |
| PoolMap.RunWorkers | src/__init__.py:249-295 | for any schedule the workers terminate and Q holds exactly one record per item, each faithful to its item's outcome, with only dead records from a worker after its failure |
| PoolMap.DeadWorkerSkips | src/__init__.py:257-270 | in a finished run, every record a worker puts after its failure is `(None, None)`: its later work is not run |
| PoolMap.Successes | src/__init__.py:298-310 | R: no more entries than the records read, less the failures |
| PoolMap.Failures | src/__init__.py:298-303 | the error list: no more entries than the records read |
| PoolMap.Collect | src/__init__.py:298-311 | reading L records: R is `Successes` of the records read, each value passed through `Apply` (the callback when one is given, the value itself otherwise), the error list is their `Failures`, the rest is left on Q |
| PoolMap.Take | src/__init__.py:301-310 | one `Q.get()` files a failure as an error, a success as a result, and drops a dead record |
| PoolMap.ReadOne | src/__init__.py:300-311 | reading one more record extends R and the error list by exactly that record's contribution |
| PoolMap.FailedPositions | src/__init__.py:302-303 | the positions of the failure records, increasing, each one and all of them |
| PoolMap.FailuresAt | src/__init__.py:302-303 | the error list is the failures at the failed positions, in collection order |
| PoolMap.Raising | src/__init__.py:264-268 | the indices whose work raises, exactly |
| PoolMap.ErrorsIffRaising | src/__init__.py:336-337 | the master raises exactly when some item's work raises (an `Exception`, see Left out) |
| PoolMap.RaisingReported | src/__init__.py:258-270 | a raising item leaves a failure record: its own, or the earlier failure of its worker when its record is dead |
| PoolMap.ErrorCountBounds | src/__init__.py:336-337 | the reported error count is at most np and at most the number of raising items |
| PoolMap.ErrorsPerWorker | src/__init__.py:258-270 | the number of failures on Q is at most np, the worker count |
| PoolMap.ErrorsPerItem | src/__init__.py:264-270 | the number of failures on Q is at most the number of raising items |
| PoolMap.FirstErrorRaised | src/__init__.py:337 | the reported trace is that of an item whose work raised |
| PoolMap.AllDone | src/__init__.py:264-272 | with no failure every record is the success of the item it answers |
| PoolMap.DoneSuccesses | src/__init__.py:307-310 | all-success records give R entry j = (index, callback(value)) of record j |
| PoolMap.SuccessesOfDone | src/__init__.py:307-310 | R of records that are all successes is one pair per record, in order, its value passed through `Apply` |
| PoolMap.NoErrorsAllDone | src/__init__.py:339-343 | with no error, R lists every item once, each with its callback-applied value |
| PoolMap.PopInOrder | src/__init__.py:339-341 | heapify then L pops: a rearrangement of R with indices in ascending order |
| PoolMap.LeastIndex | src/__init__.py:341 | finds the entry of the heap with the least index |
| PoolMap.PopStep | src/__init__.py:341 | popping the least entry keeps the pops sorted and loses nothing |
| PoolMap.PoppedInIndexOrder | src/__init__.py:339-341 | when R's indices are 0..n-1 once each, pop k is item k |
| PoolMap.Assemble | src/__init__.py:339-343 | ordered: value i is callback(work(item i)); unordered: `Values(R)`, the second components of R in collection order, which are a permutation of those |
| PoolMap.FailedOutcome | src/__init__.py:336-337 | with an error received, the raised exception meets the pool's promise |
| PoolMap.OkAnswer | src/__init__.py:339-343 | with no failure on Q, the values assembled from R meet the pool's promise: one callback value per item, by index when ordered, a permutation of them otherwise |
| PoolMap.MapPool | src/__init__.py:245-343 | the pool's answer: raises iff some item raises; the exception is (number of failures on Q, trace of the first failure on Q), between 1 and min(np, #raising) errors and a raising item's trace; else one callback value per item, by index when ordered, `Values(Successes(Q))` (collection order) otherwise |
| PoolMap.MapDebug | src/__init__.py:345-347 | succeeds iff every item's work returns, value i being work(item i); else raises the first raising item's exception |
| PoolMap.Map | src/__init__.py:235-243 | with debugging on or a serial pool it is map_debug; otherwise the pool's answer, its exception carrying the failure count and the first failure's trace, its unordered values in collection order |
| ParallelSort.LocalArgsort | src/__init__.py:571 | a permutation of the chunk's positions that sorts its keys |
| ParallelSort.MergeRuns | src/__init__.py:577 | the merge holds exactly the two inputs' positions (as a multiset) |
| ParallelSort.MergeMembers | src/__init__.py:577 | a position is in the merge exactly when it is in one of the inputs |
| ParallelSort.MergeSorted | src/__init__.py:577 | merging two key-sorted position lists gives a key-sorted list |
| ParallelSort.MergeArgsorted | src/__init__.py:576-577 | two adjacent argsorted runs merge into an argsort of the joined run |
| ParallelSort.WriteRun | src/__init__.py:571 | the slice assignment writes the run into its slice and nothing else |
| ParallelSort.MergePair | src/__init__.py:576-577 | the merge worker writes an argsort of the joined run into the same slice of the other buffer, nothing else |
| ParallelSort.MergeRound | src/__init__.py:580-581 | one pool round merges every pair of runs into the other buffer |
| ParallelSort.PairsKept | src/__init__.py:580-581 | merging one pair leaves earlier merged pairs intact |
| ParallelSort.RoundContiguous | src/__init__.py:583-584 | the kept offsets `Evens(offs)` (`suboffsets[::2]`) and the pair sums `PairSums(lens)` (`a + b` over `zip(sublengths[::2], sublengths[1::2])`) again lay half as many runs end to end over the same data, run j being runs 2j and 2j+1 joined |
| ParallelSort.RoundRuns | src/__init__.py:583-584 | after a round the merged pairs are the runs described by `Evens(offs)` and `PairSums(lens)` |
| ParallelSort.Halving | src/__init__.py:579-584 | a power of two above 1 is even and halves to a power of two, so zip drops no run |
| ParallelSort.ChunkCountPowerOfTwo | src/__init__.py:558 | `round_to_power_of_two(cpu) * 4` is a power of two, at least 8 |
| ParallelSort.ChunkLengths | src/__init__.py:563 | `sublengths` holds each chunk's length |
| ParallelSort.ExclusiveSums | src/__init__.py:564-565 | `suboffsets` starts at 0 and each offset is the previous one plus its length |
| ParallelSort.PieceLayout | src/__init__.py:562-565 | chunk k of array_split is the run of data at `offs[k]` of length `lens[k]` |
| ParallelSort.ChunkLayout | src/__init__.py:562-565 | the chunks are laid end to end over the data, covering it |
| ParallelSort.SortChunks | src/__init__.py:569-572 | after the first pool every chunk's slice of arg1 is an argsort of that chunk |
| ParallelSort.RunsKept | src/__init__.py:569-572 | sorting chunk k leaves the earlier chunks' slices sorted |
| ParallelSort.ChunkArgsorts | src/__init__.py:560-572 | a fresh arg1 holds, run by run, the argsort of every chunk |
| ParallelSort.MergeStep | src/__init__.py:579-584 | one loop round: offsets `[::2]`, pair-summed lengths, half as many runs, all merged in the other buffer |
| ParallelSort.MergeTree | src/__init__.py:579-586 | the merge loop ends with one run that is an argsort of all the data |
| ParallelSort.SingleRun | src/__init__.py:586 | one run laid over all the data is an argsort of the data |
| ParallelSort.Argsort | src/__init__.py:529-586 | the result is a permutation of the positions of data that sorts its keys, on one CPU or many |

## Left out

- `SharedMemArray` with its pickling helpers, `empty`, `empty_like`, `copy`, `wrap`,
  `fromfile`, `tofile` and `take` are not modelled. They deal with shared memory and file
  I/O, not with partitioning or scheduling.
- The `Pool`'s context-manager methods and its `rank` and `local` properties are not
  modelled.
- Processes, threads, `signal`, `S.join()`, the `join(10)` timeout loop and its
  warnings are not modelled. Concurrency becomes a schedule of worker ranks. The model
  shows that the worker loop always ends with exactly L records on Q, so the drain loop
  finds nothing; `Collect` returns what is left over. Thread-local ranks and the lock are
  not modelled.
- `cpu_count()`, the debug switch (`set_debug`) and the serial flag of a nested thread
  pool are parameters. The timeout (`set_timeout`) only bounds the join loop, which is
  not modelled.
- The module-level `zipsplit` refers to an undefined `self` and cannot run. It is not
  modelled; `Pool.zipsplit` is.
- Star mode (`workfunc(*sequence[i])`) is folded into the work function given to the
  model. `Pool.starmap` and `Pool.do` are thin wrappers and are not modelled.
- Non-zero `axis` and the explicit list of split indices of `array_split` are not
  modelled. An array is the sequence of its slices along the first axis.
- The numpy conversion of the result, and the `TypeError` for a sequence without
  `__getitem__`, are not modelled.
- `zip` and `repeat` are imported from `listtools`, which is not part of this model. `zip`
  is modelled as Python's built-in zip, stopping at the shortest input. `repeat(item)`
  is modelled as the item repeated once per chunk.
- A callback that raises is not modelled: the callback is a total function.
- `Outcome.Raised` stands for an exception the worker catches, that is, one derived from
  `Exception`. Any other `BaseException` (`SystemExit`, `KeyboardInterrupt`, an old-style
  class instance) ends its worker without a record on Q and without `S.task_done()`, so
  `Pool.map` waits forever in `Q.get()`. The model does not cover this case; `map_debug`
  lets such an exception propagate, as it does any other.
- Which arguments of `split` are broadcast is not decided by the model. The caller gives
  each argument as `Broadcast` or `Sliceable`. The code repeats tuples and numpy scalars
  only, so a 0-d array or `None` goes down the sliceable path and raises `IndexError` at
  `shape[ax]`. That case is not modelled.
- The raised message (the error count, then the first trace) is modelled as the pair (count,
  first trace).
- `_mergesort.merge` and `reorderdtype` are compiled helpers that are not part of this
  model. `MergeRuns` is a reference merge with the contract the merge step needs. `order`
  is not modelled, and keys are integers, not floating point.
- Stability of `argsort` is not proved. numpy's default local argsort is not stable, and
  the tie-breaking of the compiled merge is not part of this model.
- `PowerOfTwo.RoundToPowerOfTwo`: the round-up guarantee is stated only for inputs up to
  2^64. The smear stops at a shift of 32, so above 2^64 the code does not round up to
  a power of two.
- `ParallelSort.Argsort`: requires a CPU count of at most 2^64 for the same reason.
- `PoolMap.Map`, `PoolMap.MapPool` and `PoolMap.RunWorkers`: require at least one
  worker when the sequence is non-empty. With no worker the master waits forever for
  records that never come.
- `PoolMap.PopInOrder`: the binary heap is modelled by its pop order (least index first),
  not its array layout.
- `PoolMap.Assemble`: in unordered mode the values follow the order in which records were
  read from Q. That order depends on the schedule, so it is stated against the collected
  records, not against the items.
- `ParallelSort.Argsort` returns the final buffer's contents as a sequence rather than
  the numpy array itself.
