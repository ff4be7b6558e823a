# A verified model of the ssdsim NAND-flash disk simulator

ssdsim simulates a NAND-flash solid-state disk.
- A disk is a grid of blocks of pages. Each page is empty, in use (holding live data) or dirty (holding a stale copy).
- The flash translation layer (FTL) keeps every page's status plus two counters per block: the number of empty pages and the number of dirty pages.
- Writing turns an empty page into an in-use page. Updating a live page writes a fresh copy and leaves the old page dirty. Only erasing a whole block makes pages empty again.
- A garbage collector compacts blocks whose share of dirty pages reaches a threshold. It reads the live pages, erases the block and writes the live pages back.
- Every operation is charged simulated time, and the disk keeps counters from which it reports IOPS, host bandwidth, write amplification and the failure rate.
- A simulation drives several disks with random page writes and samples their statistics rows, either every so many host writes or every so much simulated time.

The project models that core in seven modules:

- `NandCommon` (common.dfy): page statuses, operation outcomes, `Option`/`Result`, counting pages of a status, the first page of a status, and the time charge of `n` operations.
- `GarbageCollectorSimple` (gc_simple.dfy): the simple collector's time gate, its dirtiness test (an exact decimal comparison), its constructor defaults and its name.
- `GarbageCollectorInterface` (gc_interface.dfy): the choice of collector and the "run once" selection of the most dirty block.
- `DiskModel` (disk_model.dfy): the disk as a value (`DiskState`: FTL, death times, counters, last collector run). It holds one specification function per engine operation, the metrics, and the lemmas that state what each operation does.
- `NandDisk` (nand_disk.dfy): the disk engine as a class whose methods update the FTL, death-time table and counters in place. Every state-changing method is proved to produce exactly the new state and result of its `DiskModel` function, so the lemmas about the functions carry over to the methods.
- `NandFactory` (nand_factory.dfy): selecting a disk class from a write-policy token and a collector token, and building a disk with the defaults.
- `Simulation` (simulation.dfy): the simulation driver as a class. It covers the initialisation guard, the default sampling interval, adding a disk, one simulation step with its retry loop, and the decision to store statistics rows.

Two invariants carry the model:
- `DiskModel.WellFormed`: every block has `pagesPerBlock` pages, its `empty`/`dirty` counters equal the counts of empty and dirty pages, and all counters are non-negative.
- `NandDisk.NandDisk.Valid`: the disk's fields agree with that state and its page total is blocks × pages.

Every operation preserves both.

## Model

| member | source | states |
|---|---|---|
| NandCommon.FirstIndexOf | simulator/NAND/BaseNANDDisk.py:319-324 | the index returned is the lowest page of the given status, or the length when there is none |
| NandCommon.CountPartition | simulator/NAND/BaseNANDDisk.py:234-239 | the empty, in-use and dirty counts of a block add up to its number of pages |
| NandCommon.TimesIsProduct | simulator/NAND/GarbageCollectors/GarbageCollectorSimple.py:84-98 | charging `n` operations one at a time costs `n` times the unit cost |
| GarbageCollectorSimple.CheckGcRunIgnoresForce | simulator/NAND/GarbageCollectors/GarbageCollectorSimple.py:50-58 | the time gate gives the same answer with and without the force flag; with the last run at 0 it opens exactly when the disk time reaches the minimum time |
| GarbageCollectorSimple.CheckGcBlockIsRatioTest | simulator/NAND/GarbageCollectors/GarbageCollectorSimple.py:61-73 | a block qualifies iff the run is forced and it has a dirty page, or its dirty pages divided by its pages is at least the dirtiness threshold |
| GarbageCollectorSimple.GcNameRoundTrip | simulator/NAND/GarbageCollectors/GarbageCollectorSimple.py:47-48 | the name "simple (<mintime>, <dirtiness>)" splits back into exactly the minimum time and the dirtiness it was built from |
| GarbageCollectorSimple.GcNameInjective | simulator/NAND/GarbageCollectors/GarbageCollectorSimple.py:47-48 | two simple collectors with the same name have the same minimum time and dirtiness |
| GarbageCollectorSimple.IntToStringRoundTrip | simulator/NAND/GarbageCollectors/GarbageCollectorSimple.py:48 | the text of the minimum time, sign included, reads back as that integer and holds no comma |
| GarbageCollectorSimple.DecToStringRoundTrip | simulator/NAND/GarbageCollectors/GarbageCollectorSimple.py:47-48 | the text of the dirtiness reads back as the same coefficient and scale ("0.4" and "0.40" stay apart) |
| GarbageCollectorSimple.NatToStringRoundTrip | simulator/NAND/GarbageCollectors/GarbageCollectorSimple.py:47-48 | the decimal text of the minimum time reads back as that number |
| GarbageCollectorInterface.MostDirtyBlock | simulator/NAND/GarbageCollectors/GarbageCollectorInterface.py:42-55 | the run-once scan picks a block with the largest dirty count; on a tie it picks the lowest index; if no block is dirty it picks block 0 with count 0 |
| DiskModel.InitialState | simulator/NAND/BaseNANDDisk.py:25-153 | a new disk is well formed, has every page empty and none in use or dirty |
| DiskModel.TotalPartition | simulator/NAND/BaseNANDDisk.py:214-239 | across the disk, the in-use pages are the total minus the empty and the dirty ones |
| DiskModel.RawWrite | simulator/NAND/BaseNANDDisk.py:372-381 | a disk-full outcome changes nothing but the failed-write counter |
| DiskModel.RawWriteWellFormed | simulator/NAND/BaseNANDDisk.py:344-402 | every raw write keeps the block counters equal to the page counts |
| DiskModel.RawWriteEffect | simulator/NAND/BaseNANDDisk.py:344-402 | a disk-full refusal is the only failure counted; the host counters, reads, erases and last-run time are untouched; under the default policy each success counts exactly one page written |
| DiskModel.RawWriteFreshPage | simulator/NAND/BaseNANDDisk.py:355-365 | a write to an empty page makes that very page live with the given death time, uses one empty page and charges one write |
| DiskModel.RawWriteUpdate | simulator/NAND/BaseNANDDisk.py:383-398 | updating a live page in a block with room turns it dirty and makes the first empty page of the block live; the block's empty counter drops by one and its dirty counter rises by one |
| DiskModel.RawWriteFullBlock | simulator/NAND/BaseNANDDisk.py:372-381 | updating a live page in a full block succeeds iff the write policy accepts; a refusal is a disk-full failure |
| DiskModel.RawWriteDirtyPage | simulator/NAND/BaseNANDDisk.py:400-402 | a write to a dirty page fails as dirty and changes nothing |
| DiskModel.RawReadEffect | simulator/NAND/BaseNANDDisk.py:406-423 | a read succeeds iff the page is live; a success charges one read time and counts one read; no page status changes |
| DiskModel.EraseBlockEffect | simulator/NAND/BaseNANDDisk.py:426-445 | erasing leaves the block all empty with counters (pagesPerBlock, 0), counts one erase, charges the erase time and touches no other block |
| DiskModel.CompactionCounts | simulator/NAND/GarbageCollectors/GarbageCollectorSimple.py:84-90 | the copy read from a block keeps its live pages, has no dirty page, and frees every page that was not live |
| DiskModel.ExecuteGcBlockWellFormed | simulator/NAND/GarbageCollectors/GarbageCollectorSimple.py:76-100 | cleaning a block keeps its live pages live at their index, leaves no dirty page, and keeps the disk well formed |
| DiskModel.GcPassWellFormed | simulator/NAND/GarbageCollectors/GarbageCollectorInterface.py:57-69 | a full collector pass keeps the disk well formed |
| DiskModel.GcPassStep | simulator/NAND/GarbageCollectors/GarbageCollectorInterface.py:60-67 | one loop iteration takes the pass over blocks 0..n-1 to the pass over 0..n: block n is judged on the current state and cleaned iff it qualifies |
| DiskModel.GcPassStart | simulator/NAND/GarbageCollectors/GarbageCollectorInterface.py:59 | before the loop has visited any block, the pass has changed nothing and reports no run |
| DiskModel.GcPassRan | simulator/NAND/GarbageCollectors/GarbageCollectorInterface.py:59-69 | a pass reports a run iff some visited block qualified |
| DiskModel.ChargeCompose | simulator/NAND/GarbageCollectors/GarbageCollectorSimple.py:84-98 | cleaning one more block adds its reads, its erase and its rewrites to the pass's counters |
| DiskModel.RunGcRunOnce | simulator/NAND/GarbageCollectors/GarbageCollectorInterface.py:42-55 | a run-once request changes nothing and returns the block `MostDirtyBlock` picks |
| DiskModel.RunGcEffect | simulator/NAND/GarbageCollectors/GarbageCollectorInterface.py:57-72 | without run-once, the disk changes only if the collector's time gate opens; the collector's last-run time never changes; the disk stays well formed |
| DiskModel.RunGcKeepsLive | simulator/NAND/GarbageCollectors/GarbageCollectorInterface.py:36-72 | no collector turn changes which pages are live |
| DiskModel.HostWriteEffect | simulator/NAND/BaseNANDDisk.py:449-472 | one host write is counted iff the final outcome is a success; a disk-full failure is counted once (the failure that caused the retry is taken back); the disk stays well formed |
| DiskModel.HostWriteRetry | simulator/NAND/BaseNANDDisk.py:457-472 | only a disk-full outcome of an unforced write is retried, once, with a forced collector run; any other first outcome is final |
| DiskModel.ForcedRetryOnLivePage | simulator/NAND/BaseNANDDisk.py:464-470 | a forced write to a live page never ends as a dirty failure |
| DiskModel.HostReadEffect | simulator/NAND/BaseNANDDisk.py:534-550 | after the collector's turn, a host read succeeds iff the page is live, and it counts one host read iff it succeeds |
| DiskModel.HostDeathtimeWrite | simulator/NAND/BaseNANDDisk.py:476-530 | the operation fails iff the page is empty and the death time is not -1, which is when the placement search raises; the error is that of indexing the death-time list by a counter key |
| DiskModel.HostDeathtimeWriteEffect | simulator/NAND/BaseNANDDisk.py:476-505 | a fresh write with death time -1 always succeeds: it lands in the requested page, charges one write and counts one host write, with no collector turn; with any other death time it is the placement error; a write to a used page becomes a run-once host write of page (0, 0) with death time -1 |
| DiskModel.WriteFailingAfterDiskFull | simulator/NAND/BaseNANDDisk.py:302-307 | `is_write_failing` becomes true once a host write ends disk-full, and otherwise stays as it was |
| DiskModel.DefaultPolicyAmplification | simulator/NAND/BaseNANDDisk.py:203-212 | under the default policy, pages written never fall below host writes requested |
| DiskModel.AmplificationAtLeastOne | simulator/NAND/BaseNANDDisk.py:203-212 | in that case the write amplification is at least 1 |
| DiskModel.WriteAmplification | simulator/NAND/BaseNANDDisk.py:203-212 | 0 when there is no host write, otherwise pages written divided by host writes |
| DiskModel.FailureRate | simulator/NAND/BaseNANDDisk.py:241-250 | 0 when nothing was written, otherwise failed writes × 100 divided by pages written |
| DiskModel.ElapsedTimeSeconds | simulator/NAND/BaseNANDDisk.py:259-264 | the disk time in microseconds divided by 10^6 |
| DiskModel.Iops | simulator/NAND/BaseNANDDisk.py:266-276 | 0 before any time has elapsed, otherwise pages written plus read per simulated second |
| DiskModel.BandwidthHost | simulator/NAND/BaseNANDDisk.py:278-289 | 0 before any time has elapsed, otherwise host-requested MiB per simulated second |
| NandDisk.NandDisk.constructor | simulator/NAND/BaseNANDDisk.py:25-153 | the disk holds the given geometry, times, collector and policy; its derived sizes are products of them; its state is the initial one |
| NandDisk.NandDisk.GetEmptyPage | simulator/NAND/BaseNANDDisk.py:310-326 | there is no page iff the block's empty counter is not positive; otherwise it is the lowest empty page of the block |
| NandDisk.NandDisk.GetEmptyBlock | simulator/NAND/BaseNANDDisk.py:328-340 | it finds the lowest block whose pages are all empty, or reports none (block 0) when no block is entirely empty |
| NandDisk.NandDisk.GetMinDeathtimeBlock | simulator/NAND/BaseNANDDisk.py:499-530 | with death time -1 the requested block and page are returned unchanged; with any other death time the search fails with the placement error |
| NandDisk.NandDisk.RawWritePage | simulator/NAND/BaseNANDDisk.py:344-402 | the new state and the outcome are those of `DiskModel.RawWrite` |
| NandDisk.NandDisk.RawReadPage | simulator/NAND/BaseNANDDisk.py:406-423 | the new state and the outcome are those of `DiskModel.RawRead` |
| NandDisk.NandDisk.RawEraseBlock | simulator/NAND/BaseNANDDisk.py:426-445 | the erase succeeds and the new state is that of `DiskModel.EraseBlock` |
| NandDisk.NandDisk.ExecuteGcBlock | simulator/NAND/GarbageCollectors/GarbageCollectorSimple.py:76-100 | the read, erase and rewrite steps reach exactly the state of `DiskModel.ExecuteGcBlock` and report success |
| NandDisk.NandDisk.ReadBlock | simulator/NAND/GarbageCollectors/GarbageCollectorSimple.py:84-90 | reading every page of the block yields its compacted copy and charges one read per live page |
| NandDisk.NandDisk.WriteBack | simulator/NAND/GarbageCollectors/GarbageCollectorSimple.py:96-98 | writing back the live pages of the copy onto the erased block reaches the state after all rewrites |
| NandDisk.NandDisk.DirtyCountOf | simulator/NAND/GarbageCollectors/GarbageCollectorInterface.py:47-50 | the count is the number of dirty pages of the block |
| NandDisk.NandDisk.MostDirtyBlockScan | simulator/NAND/GarbageCollectors/GarbageCollectorInterface.py:42-55 | the scan returns a block with the most dirty pages, the lowest such index |
| NandDisk.NandDisk.RunGc | simulator/NAND/GarbageCollectors/GarbageCollectorInterface.py:36-72 | the new state and the outcome are those of `DiskModel.RunGc` |
| NandDisk.NandDisk.HostWritePage | simulator/NAND/BaseNANDDisk.py:449-472 | the new state and the outcome are those of `DiskModel.HostWrite`, retry included |
| NandDisk.NandDisk.HostReadPage | simulator/NAND/BaseNANDDisk.py:534-550 | the new state and the outcome are those of `DiskModel.HostRead` |
| NandDisk.NandDisk.HostDeathtimePageWrite | simulator/NAND/BaseNANDDisk.py:476-495 | the new state and the outcome, or the error, are those of `DiskModel.HostDeathtimeWrite`; an error leaves the disk unchanged |
| NandDisk.NandDisk.NumberOfEmptyPages | simulator/NAND/BaseNANDDisk.py:214-222 | the sum of the blocks' empty counters is the number of empty pages on the disk |
| NandDisk.NandDisk.NumberOfDirtyPages | simulator/NAND/BaseNANDDisk.py:224-232 | the sum of the blocks' dirty counters is the number of dirty pages on the disk |
| NandDisk.NandDisk.NumberOfInUsePages | simulator/NAND/BaseNANDDisk.py:234-239 | the total pages minus empty and dirty is the number of live pages on the disk |
| NandDisk.NandDisk.GetStats | simulator/NAND/BaseNANDDisk.py:291-299 | the row holds the disk's counters and metrics in their fixed order; its last field is the number of dirty pages |
| NandDisk.RewriteFinish | simulator/NAND/GarbageCollectors/GarbageCollectorSimple.py:92-100 | reading, erasing and rewriting the live pages at their own indices reaches exactly the compacted block |
| NandFactory.GetClass | simulator/NAND/NANDFactory.py:29-57 | an unknown write-policy token is refused first; then an unknown collector token is refused; a success names the class after both tokens and carries the strategies they stand for |
| NandFactory.GetClassAcceptsTokens | simulator/NAND/NANDFactory.py:19-57 | every pair of known tokens is accepted and selects the strategies it names |
| NandFactory.ClassNameRoundTrip | simulator/NAND/NANDFactory.py:35-55 | the class name can be parsed back into the two strategies it was built from |
| NandFactory.ClassNameInjective | simulator/NAND/NANDFactory.py:35-55 | two selections with the same class name are the same selection |
| NandFactory.CollectorOf | simulator/NAND/NANDFactory.py:49-54 | the none token gives the collector that never runs; the simple token gives the simple collector with 500000 µs and 0.4 |
| NandFactory.GetInstance | simulator/NAND/NANDFactory.py:60-66 | fails exactly when the class selection fails, with its message; otherwise a fresh valid disk in its initial state with 256 blocks × 128 pages of 4096 bytes, times 40/20/1500, the selected collector and write policy |
| Simulation.TruncatedTenth | simulator/Simulation.py:127 | int() of a tenth truncates toward zero, for positive and negative sample sizes |
| Simulation.DefaultSampling | simulator/Simulation.py:125-131 | the default interval is a truncated tenth of the sample size, except that a sample size from 1 to 9 gets exactly 1; it is at least 1 whenever the sample size is positive |
| Simulation.HostWriteSampleDue | simulator/Simulation.py:295-303 | a row is due iff the index reached the sample size or is a positive multiple of the interval; a zero interval below the sample size is the division-by-zero error |
| Simulation.DefaultSamplingNeverFails | simulator/Simulation.py:125-131 | with the default interval and a positive sample size, host-write sampling never divides by zero |
| Simulation.TimeSampleNotDueTwice | simulator/Simulation.py:313-319 | right after a row is stored, a second row at the same disk time is due iff the interval is not positive |
| Simulation.TimeSampleDueMonotone | simulator/Simulation.py:313-314 | a row is due once the disk time has moved on by the interval, and never while it stands still with a positive interval |
| Simulation.AttemptOn | simulator/Simulation.py:254-259 | one attempt of a step is a death-time write or a plain host write of the sampled page, and keeps the disk well formed |
| Simulation.DriftLoop | simulator/Simulation.py:249-270 | a disk's turn consumes between 1 and 3 samples; a write that succeeds or fails for a reason other than a dirty page ends the turn there, with its state and outcome, and the turn goes on past a write only when that write failed on a dirty page |
| Simulation.AttemptWrite | simulator/Simulation.py:254-259 | the disk's new state and outcome are those of `AttemptOn` |
| Simulation.DriftTurn | simulator/Simulation.py:252-270 | one loop iteration matches one unfolding of `DriftLoop` |
| Simulation.StepDisk | simulator/Simulation.py:248-270 | the retry loop reaches exactly the disk state, sample index and outcome of `DriftLoop` |
| Simulation.IndexOfName | simulator/Simulation.py:180-181 | finds the position of a disk name, the first one, or none iff the name is absent |
| Simulation.Simulation.constructor | simulator/Simulation.py:61-131 | the simulation keeps the given name, sample size and sampling type, has no disks and is not initialised; the interval is the given one or the default |
| Simulation.Simulation.InitSimulation | simulator/Simulation.py:133-172 | a second initialisation is refused; a missing base path is refused and leaves the simulation uninitialised; otherwise it is initialised |
| Simulation.Simulation.AddDisk | simulator/Simulation.py:174-193 | refused before initialisation with nothing changed; a new name is appended, and a known name has its disk replaced in place; either way the disk gets one row of zeros |
| Simulation.Simulation.ExecuteOneSimulationStep | simulator/Simulation.py:242-270 | every disk takes its turn; each disk's sample index moves on by 1 to 3 |
| Simulation.Simulation.StepOne | simulator/Simulation.py:248-270 | one disk's turn leaves that disk in the state, and its sample index at the position, that `DriftLoop` gives from where they were; the index moves by 1 to 3 and no other disk's index moves |
| Simulation.Simulation.StoreStatDisk | simulator/Simulation.py:278-292 | one disk's record gets the disk's current statistics row appended and its row count increased by one; other disks are untouched |
| Simulation.Simulation.StoreAllStats | simulator/Simulation.py:300-301 | every disk gets its current row appended |
| Simulation.Simulation.StoreDueStats | simulator/Simulation.py:304-320 | every disk whose time-sampling test is due gets a row and its last time updated; a disk without a last time stops the sweep with an error after the earlier disks were handled |
| Simulation.Simulation.StoreIfDue | simulator/Simulation.py:310-319 | one disk's record is the result of the time-sampling test on its time |
| Simulation.Simulation.ExtractAndStoreStats | simulator/Simulation.py:272-322 | refused before initialisation; with host-write sampling, every disk gets a row iff a row is due; with time sampling, the per-disk test applies; any other type stores nothing and returns false |

## Left out

- Decimal precision and quantisation: the metrics are exact reals, and `DECIMAL_PRECISION`, `qz`/`qd` rounding and the `DECIMAL_PRECISION` context of the ratio test are not modelled.
- DiskModel.BandwidthHost: the MiB divisor is taken as 1048576 bytes. `pages_to_mib` and its constants live in `common.py`, and common.py is not part of this model.
- Simulation.TruncatedTenth: Python's `int(n * 0.1)` is taken as exact truncation of n/10. For huge sample sizes the binary value of 0.1 can give a different result.
- DiskModel.RawWriteFullBlock: the full-block write policy is an oracle `(block, page) -> bool`, and an accepting answer changes no state.
  - The source lets a policy update the disk's own statistics (BaseNANDDisk.py:375). The in-place policies are not part of this model, so the model covers only policies that change nothing, as the death-time policy in the tree does.
  - The "nothing else changes" parts of `RawWriteFullBlock` and `RawWriteEffect` in the accepting case rest on that. The default policy's source is not part of this model; it is taken as always refusing.
- The none collector: its source is not part of this model. It is taken as never running and never qualifying a block.
- NandDisk.NandDisk.GetMinDeathtimeBlock: the early return for death time -1 is modelled as written. For any other death time the search is modelled by its outcome only: `get_deathtime_score_for_block` walks the counter keys 'empty' and 'dirty' of the block's entry and indexes the death-time list with one of them, which raises a `TypeError`. The model returns that error (`DeathTimeScoreError`) instead of raising, and the root-mean-square arithmetic itself is not modelled. The simulation only ever writes with death time -1.
- GarbageCollectorInterface.MostDirtyBlock, NandDisk.NandDisk.DirtyCountOf, NandDisk.NandDisk.MostDirtyBlockScan and DiskModel.RunGcRunOnce: the run-once scan (GarbageCollectorInterface.py:42-55) is modelled as the argmax of each block's dirty-page count.
  - As written, its inner loop iterates the block dictionary's keys (page indices and the counter names), not its page statuses.
  - The value of `PAGE_DIRTY` is in common.py, which is not part of this model.
  - The model follows the evident intent of counting dirty pages. The pick only ever reaches `host_write_page`, whose call at BaseNANDDisk.py:457 discards it, so the disk's behaviour does not depend on which block is picked.
- GarbageCollectorSimple.CheckGcRun: the force flag is ignored and the last-run time is never updated after a run, both as in the source, so the gate stays open once the disk time reaches the minimum time.
- The `greedy` constructor parameter of the simple collector is ignored by the source and not modelled.
- The `check_block`/`check_page` argument checks are preconditions (`block < totalBlocks`, `page < pagesPerBlock`) rather than raised errors.
- GarbageCollectorSimple.DecToString: only plain decimal notation is produced. Python's exponent notation for very small or very large Decimals is not modelled.
- `__str__`, `output_stats`, `output_disks`, `run()`, console colours, directory creation and all file I/O are left out.
  - Whether the base path exists is a parameter of `InitSimulation`.
  - The random samples that `run()` draws are given to the step as sequences.
- `run()` sets each disk's last sampling time to 0 before sampling by time. The model starts from the unset value (`None`) and reports the error the source would raise when a disk reaches the time test unset.
- Python dictionaries keyed by disk name are insertion-ordered parallel sequences (names, disks, statistics, samples, sample indices).
- Statistics columns are one sequence of rows per disk, rather than one numpy array per column.
- Simulation.Attempt: outside the disk invariant and the sample bounds, which every call site establishes, the attempt function returns a dirty failure. The source has no such case.
- Simulation.Simulation.ExecuteOneSimulationStep: states only how far each disk's sample index moves. Two entries may name the same disk object, so the per-disk equality with `DriftLoop` is proved per turn (`StepDisk`, `StepOne`), not for the whole step.
- Simulation.Simulation.StoreDueStats: a disk without a last sampling time is reported as an error result instead of a raised `TypeError`. The same holds for the `RuntimeError`/`IOError` of `check_init` and `init_simulation`.
