/** The flash-state engine on values: the per-block page-status table with its empty/dirty
    counters, the death-time table and the statistics counters, and every engine operation
    as a function from one state to the next. The imperative disk (module NandDisk) is
    proved to follow these functions step by step; the lemmas here state what the
    operations promise. */
module DiskModel {
  import opened NandCommon
  import opened GarbageCollectorInterface
  import GarbageCollectorSimple

  /** One block of the FTL table: its page statuses and the two counters kept beside them. */
  datatype BlockState = BlockState(pages: seq<PageStatus>, empty: int, dirty: int)

  /** The engine's statistics, one field per counter of the source. */
  datatype Counters = Counters(
    elapsedTime: int,
    hostPageWriteRequest: int,
    pageWriteExecuted: int,
    pageWriteFailed: int,
    hostPageReadRequest: int,
    pageReadExecuted: int,
    blockEraseExecuted: int,
    gcForcedCount: int)

  const ZeroCounters: Counters := Counters(0, 0, 0, 0, 0, 0, 0, 0)

  /** Everything an engine operation may change. `lastRun` is the simple collector's time of
      its last run. */
  datatype DiskState = DiskState(
    ftl: seq<BlockState>,
    deathTimes: seq<seq<int>>,
    stats: Counters,
    lastRun: int)

  /** What is fixed at construction: geometry, timing costs (microseconds), the plugged-in
      collector and the full-block write policy. The policy is an oracle: it answers whether
      an update to a full block found a place; an accepting answer changes nothing here. */
  datatype Config = Config(
    totalBlocks: nat,
    pagesPerBlock: nat,
    pageSize: int,
    writePageTime: int,
    readPageTime: int,
    eraseBlockTime: int,
    collector: Collector,
    fullBlockWritePolicy: (nat, nat) -> bool)

  /** One statistics row, in the order get_stats returns its fields. */
  datatype StatsRow = StatsRow(
    time: int,
    iops: real,
    bandwidth: real,
    amplification: real,
    hostWrite: int,
    hostRead: int,
    diskWrite: int,
    diskRead: int,
    blockErased: int,
    failures: int,
    dirty: int)

  const ZeroRow: StatsRow := StatsRow(0, 0.0, 0.0, 0.0, 0, 0, 0, 0, 0, 0, 0)

  predicate ConfigOk(c: Config)
  {
    && c.totalBlocks > 0 && c.pagesPerBlock > 0 && c.pageSize > 0
    && c.writePageTime > 0 && c.readPageTime > 0 && c.eraseBlockTime > 0
  }

  /** The per-block counter invariant: 'empty' and 'dirty' count the pages of that status. */
  predicate BlockOk(blk: BlockState, pagesPerBlock: nat)
  {
    && |blk.pages| == pagesPerBlock
    && blk.empty == Count(blk.pages, PageEmpty)
    && blk.dirty == Count(blk.pages, PageDirty)
  }

  predicate CountersOk(st: Counters)
  {
    && st.elapsedTime >= 0 && st.hostPageWriteRequest >= 0 && st.pageWriteExecuted >= 0
    && st.pageWriteFailed >= 0 && st.hostPageReadRequest >= 0 && st.pageReadExecuted >= 0
    && st.blockEraseExecuted >= 0 && st.gcForcedCount >= 0
  }

  /** No counter went down from `a` to `b`. */
  predicate CountersGrow(a: Counters, b: Counters)
  {
    && a.elapsedTime <= b.elapsedTime && a.hostPageWriteRequest <= b.hostPageWriteRequest
    && a.pageWriteExecuted <= b.pageWriteExecuted && a.pageWriteFailed <= b.pageWriteFailed
    && a.hostPageReadRequest <= b.hostPageReadRequest && a.pageReadExecuted <= b.pageReadExecuted
    && a.blockEraseExecuted <= b.blockEraseExecuted && a.gcForcedCount <= b.gcForcedCount
  }

  /** The tables have the configured geometry. */
  predicate Shaped(c: Config, s: DiskState)
  {
    && ConfigOk(c)
    && |s.ftl| == c.totalBlocks
    && |s.deathTimes| == c.totalBlocks
    && (forall b :: 0 <= b < |s.ftl| ==> |s.ftl[b].pages| == c.pagesPerBlock)
    && (forall b :: 0 <= b < |s.deathTimes| ==> |s.deathTimes[b]| == c.pagesPerBlock)
  }

  /** The engine's invariant: the geometry, exact block counters and non-negative statistics. */
  predicate WellFormed(c: Config, s: DiskState)
  {
    && Shaped(c, s)
    && (forall b :: 0 <= b < |s.ftl| ==> BlockOk(s.ftl[b], c.pagesPerBlock))
    && CountersOk(s.stats)
  }

  /** The state right after construction. */
  function Initial(c: Config): DiskState
  {
    DiskState(
      seq(c.totalBlocks, _ => BlockState(seq(c.pagesPerBlock, _ => PageEmpty), c.pagesPerBlock, 0)),
      seq(c.totalBlocks, _ => seq(c.pagesPerBlock, _ => -1)),
      ZeroCounters,
      0)
  }

  // ---------------------------------------------------------------------------------------
  // Raw operations
  // ---------------------------------------------------------------------------------------

  /** raw_write_page. */
  function RawWrite(c: Config, s: DiskState, block: nat, page: nat, deathTime: int): (r: (DiskState, WriteOutcome))
    requires WellFormed(c, s) && block < c.totalBlocks && page < c.pagesPerBlock
    ensures r.1.1 == OperationFailedDiskFull ==>
              r.0 == s.(stats := s.stats.(pageWriteFailed := s.stats.pageWriteFailed + 1))
  {
    var blk := s.ftl[block];
    var st := s.stats;
    match blk.pages[page]
    case PageEmpty =>
      (s.(ftl := s.ftl[block := blk.(pages := blk.pages[page := PageInUse], empty := blk.empty - 1)],
          deathTimes := s.deathTimes[block := s.deathTimes[block][page := deathTime]],
          stats := st.(elapsedTime := st.elapsedTime + c.writePageTime,
                       pageWriteExecuted := st.pageWriteExecuted + 1)),
       (true, OperationSuccess))
    case PageInUse =>
      if blk.empty <= 0 then
        if c.fullBlockWritePolicy(block, page) then (s, (true, OperationSuccess))
        else (s.(stats := st.(pageWriteFailed := st.pageWriteFailed + 1)), (false, OperationFailedDiskFull))
      else
        CountPositiveFound(blk.pages, PageEmpty);
        var newPage := FirstIndexOf(blk.pages, PageEmpty);
        (s.(ftl := s.ftl[block := BlockState(blk.pages[page := PageDirty][newPage := PageInUse],
                                             blk.empty - 1, blk.dirty + 1)],
            stats := st.(elapsedTime := st.elapsedTime + c.writePageTime,
                         pageWriteExecuted := st.pageWriteExecuted + 1)),
         (true, OperationSuccess))
    case PageDirty =>
      (s, (false, OperationFailedDirty))
  }

  /** raw_read_page. */
  function RawRead(c: Config, s: DiskState, block: nat, page: nat): (DiskState, WriteOutcome)
    requires WellFormed(c, s) && block < c.totalBlocks && page < c.pagesPerBlock
  {
    if s.ftl[block].pages[page] == PageInUse then
      (s.(stats := s.stats.(elapsedTime := s.stats.elapsedTime + c.readPageTime,
                            pageReadExecuted := s.stats.pageReadExecuted + 1)),
       (true, OperationSuccess))
    else
      (s, (false, OperationFailedDirty))
  }

  /** raw_erase_block (it always reports True). */
  function EraseBlock(c: Config, s: DiskState, block: nat): DiskState
    requires WellFormed(c, s) && block < c.totalBlocks
  {
    s.(ftl := s.ftl[block := BlockState(seq(c.pagesPerBlock, _ => PageEmpty), c.pagesPerBlock, 0)],
       stats := s.stats.(blockEraseExecuted := s.stats.blockEraseExecuted + 1,
                         elapsedTime := s.stats.elapsedTime + c.eraseBlockTime))
  }

  // ---------------------------------------------------------------------------------------
  // Garbage collection
  // ---------------------------------------------------------------------------------------

  /** Page statuses after compaction: live pages stay where they were, all others are empty. */
  function AfterCompaction(pages: seq<PageStatus>): seq<PageStatus>
  {
    seq(|pages|, i requires 0 <= i < |pages| => if pages[i] == PageInUse then PageInUse else PageEmpty)
  }

  function CompactedBlock(blk: BlockState, pagesPerBlock: nat): BlockState
  {
    BlockState(AfterCompaction(blk.pages), pagesPerBlock - Count(blk.pages, PageInUse), 0)
  }

  /** execute_gc_block of the simple collector, all three phases at once: one read per live
      page, one erase, one rewrite (death time -1) per live page at the same index. */
  function ExecuteGcBlock(c: Config, s: DiskState, block: nat): (r: DiskState)
    requires Shaped(c, s) && block < c.totalBlocks
    ensures Shaped(c, r)
  {
    s.(ftl := s.ftl[block := CompactedBlock(s.ftl[block], c.pagesPerBlock)],
       deathTimes := s.deathTimes[block := ClearLiveDeathTimes(s.deathTimes[block], s.ftl[block].pages)],
       stats := GcCharge(c, s.stats, Count(s.ftl[block].pages, PageInUse)))
  }

  /** The death times of a block after its live pages were rewritten with death time -1. */
  function ClearLiveDeathTimes(deathTimes: seq<int>, pages: seq<PageStatus>): (r: seq<int>)
    requires |deathTimes| == |pages|
    ensures |r| == |pages|
    ensures forall p :: 0 <= p < |pages| ==> r[p] == if pages[p] == PageInUse then -1 else deathTimes[p]
  {
    seq(|pages|, p requires 0 <= p < |pages| => if pages[p] == PageInUse then -1 else deathTimes[p])
  }

  /** The counters after cleaning one block holding `live` live pages: a read and a write per
      live page and one erase. */
  function GcCharge(c: Config, st: Counters, live: nat): Counters
  {
    st.(elapsedTime := st.elapsedTime + Times(live, c.readPageTime) + c.eraseBlockTime + Times(live, c.writePageTime),
        pageReadExecuted := st.pageReadExecuted + live,
        blockEraseExecuted := st.blockEraseExecuted + 1,
        pageWriteExecuted := st.pageWriteExecuted + live)
  }

  /** Does a block qualify for cleaning? (check_gc_block, from the block's dirty counter) */
  predicate Qualifies(c: Config, blk: BlockState, forceRun: bool)
    requires c.pagesPerBlock > 0
  {
    CollectorQualifies(c.collector, blk.dirty, c.pagesPerBlock, forceRun)
  }

  /** Is block `b` cleaned by a pass over the blocks 0 .. n-1 that started in state `s`? */
  predicate Cleaned(c: Config, s: DiskState, forceRun: bool, n: nat, b: nat)
    requires Shaped(c, s) && b < c.totalBlocks
  {
    b < n && Qualifies(c, s.ftl[b], forceRun)
  }

  /** The state after run_gc's loop has visited the blocks 0 .. n-1, and its `execution` flag:
      each qualifying block is compacted and gets its live pages' death times cleared, the
      counters are charged for all of them, and the flag says whether any block qualified.
      GcPassStep shows that visiting one more block, as the loop does, yields the next pass. */
  function GcPass(c: Config, s: DiskState, forceRun: bool, n: nat): (r: (DiskState, bool))
    requires Shaped(c, s) && n <= c.totalBlocks
    ensures Shaped(c, r.0)
  {
    (s.(ftl := seq(c.totalBlocks, b requires 0 <= b < c.totalBlocks =>
                     if Cleaned(c, s, forceRun, n, b) then CompactedBlock(s.ftl[b], c.pagesPerBlock) else s.ftl[b]),
        deathTimes := seq(c.totalBlocks, b requires 0 <= b < c.totalBlocks =>
                            if Cleaned(c, s, forceRun, n, b)
                            then ClearLiveDeathTimes(s.deathTimes[b], s.ftl[b].pages) else s.deathTimes[b]),
        stats := PassCharge(c, s.stats, QualifyingLive(c, s, forceRun, n), QualifyingBlocks(c, s, forceRun, n))),
     QualifyingBlocks(c, s, forceRun, n) > 0)
  }

  /** Count of DIRTY pages of every block, by scanning the pages. */
  function DirtyCounts(ftl: seq<BlockState>): (r: seq<nat>)
    ensures |r| == |ftl|
  {
    seq(|ftl|, b requires 0 <= b < |ftl| => Count(ftl[b].pages, PageDirty))
  }

  /** run_gc. The run-once request only selects the most dirty block; otherwise the collector
      decides whether to run and which blocks to compact. */
  function RunGc(c: Config, s: DiskState, forceRun: bool, runOnce: bool): (r: (DiskState, GcOutcome))
    requires WellFormed(c, s)
    ensures WellFormed(c, r.0)
  {
    if runOnce then
      (s, SelectedBlock(MostDirtyBlock(DirtyCounts(s.ftl)).1))
    else if CollectorRuns(c.collector, s.stats.elapsedTime, s.lastRun, forceRun) then
      GcPassWellFormed(c, s, forceRun);
      var pass := GcPass(c, s, forceRun, c.totalBlocks);
      (pass.0, Executed(pass.1))
    else
      (s, Executed(false))
  }

  // ---------------------------------------------------------------------------------------
  // Host operations
  // ---------------------------------------------------------------------------------------

  /** The state handed to the forced retry: the failure tally is undone, the forced count grows. */
  function RetryState(s: DiskState): DiskState
  {
    s.(stats := s.stats.(pageWriteFailed := s.stats.pageWriteFailed - 1,
                         gcForcedCount := s.stats.gcForcedCount + 1))
  }

  /** host_write_page. */
  function HostWrite(c: Config, s: DiskState, block: nat, page: nat, deathTime: int,
                     gcWasForced: bool, runGcOnce: bool): (DiskState, WriteOutcome)
    requires WellFormed(c, s) && block < c.totalBlocks && page < c.pagesPerBlock
    decreases if gcWasForced then 0 else 1
  {
    var afterGc := RunGc(c, s, gcWasForced, runGcOnce).0;
    var (written, out) := RawWrite(c, afterGc, block, page, deathTime);
    if out.0 then
      (written.(stats := written.stats.(hostPageWriteRequest := written.stats.hostPageWriteRequest + 1)), out)
    else if !gcWasForced && out.1 == OperationFailedDiskFull then
      HostWrite(c, RetryState(written), block, page, deathTime, true, false)
    else
      (written, out)
  }

  /** host_read_page. */
  function HostRead(c: Config, s: DiskState, block: nat, page: nat): (DiskState, WriteOutcome)
    requires WellFormed(c, s) && block < c.totalBlocks && page < c.pagesPerBlock
  {
    var afterGc := RunGc(c, s, false, false).0;
    var (read, out) := RawRead(c, afterGc, block, page);
    if out.0 then
      (read.(stats := read.stats.(hostPageReadRequest := read.stats.hostPageReadRequest + 1)), out)
    else
      (read, out)
  }

  /** The error get_min_deathtime_block raises for any death time other than -1: its scoring
      loop walks every key of a block's FTL entry, the 'empty' and 'dirty' counter keys
      included, and uses each one to index the block's list of death times. */
  const DeathTimeScoreError: string := "list indices must be integers or slices, not str"

  /** host_deathtime_page_write. A fresh write first asks get_min_deathtime_block for a
      placement: with death time -1 that is the requested page itself, and the write goes
      there; any other death time makes the placement search raise before anything changes.
      An update is handed to host_write_page with block 0, page 0, death time -1 and a
      run-once collector request, as the source does. */
  function HostDeathtimeWrite(c: Config, s: DiskState, block: nat, page: nat, deathTime: int)
    : (r: Result<(DiskState, WriteOutcome), string>)
    requires WellFormed(c, s) && block < c.totalBlocks && page < c.pagesPerBlock
    ensures r.Failure? <==> s.ftl[block].pages[page] == PageEmpty && deathTime != -1
    ensures r.Failure? ==> r.error == DeathTimeScoreError
  {
    if s.ftl[block].pages[page] == PageEmpty then
      if deathTime != -1 then Failure(DeathTimeScoreError)
      else
        var (written, out) := RawWrite(c, s, block, page, deathTime);
        if out.0 then
          Success((written.(stats := written.stats.(hostPageWriteRequest := written.stats.hostPageWriteRequest + 1)), out))
        else
          Success((written, out))
    else
      Success(HostWrite(c, s, 0, 0, -1, false, true))
  }

  // ---------------------------------------------------------------------------------------
  // Derived metrics (exact ratios; the source's decimal rounding is not modelled)
  // ---------------------------------------------------------------------------------------

  function TotalCount(ftl: seq<BlockState>, x: PageStatus): nat
  {
    if |ftl| == 0 then 0 else TotalCount(ftl[..|ftl| - 1], x) + Count(ftl[|ftl| - 1].pages, x)
  }

  /** Bytes in a MiB. */
  const BytesPerMiB: int := 1048576

  function WriteAmplification(st: Counters): (r: real)
    ensures st.hostPageWriteRequest <= 0 ==> r == 0.0
    ensures st.hostPageWriteRequest > 0 ==> r * (st.hostPageWriteRequest as real) == st.pageWriteExecuted as real
  {
    if st.hostPageWriteRequest <= 0 then 0.0
    else (st.pageWriteExecuted as real) / (st.hostPageWriteRequest as real)
  }

  /** Failed writes as a percentage of executed writes. */
  function FailureRate(st: Counters): (r: real)
    ensures st.pageWriteExecuted <= 0 ==> r == 0.0
    ensures st.pageWriteExecuted > 0 ==> r * (st.pageWriteExecuted as real) == (st.pageWriteFailed * 100) as real
  {
    if st.pageWriteExecuted <= 0 then 0.0
    else ((st.pageWriteFailed * 100) as real) / (st.pageWriteExecuted as real)
  }

  function ElapsedTimeSeconds(st: Counters): (r: real)
    ensures r * 1000000.0 == st.elapsedTime as real
  {
    (st.elapsedTime as real) / 1000000.0
  }

  /** Pages written and read by the disk per simulated second. */
  function Iops(st: Counters): (r: real)
    ensures st.elapsedTime <= 0 ==> r == 0.0
    ensures st.elapsedTime > 0 ==>
              r * (st.elapsedTime as real) == ((st.pageWriteExecuted + st.pageReadExecuted) * 1000000) as real
  {
    if st.elapsedTime <= 0 then 0.0
    else ((st.pageWriteExecuted + st.pageReadExecuted) as real) / ElapsedTimeSeconds(st)
  }

  /** MiB requested by the host (reads and writes) per simulated second. */
  function BandwidthHost(st: Counters, pageSize: int): (r: real)
    ensures st.elapsedTime <= 0 ==> r == 0.0
    ensures st.elapsedTime > 0 ==>
              r * (st.elapsedTime as real) * (BytesPerMiB as real)
              == ((st.hostPageWriteRequest + st.hostPageReadRequest) * pageSize * 1000000) as real
  {
    if st.elapsedTime <= 0 then 0.0
    else (((st.hostPageWriteRequest + st.hostPageReadRequest) * pageSize) as real / (BytesPerMiB as real))
         / ElapsedTimeSeconds(st)
  }

  function IsWriteFailing(st: Counters): bool
  {
    st.pageWriteFailed > 0
  }

  /** get_stats of a disk in state `s`: the eleven fields in their fixed order. */
  function Snapshot(c: Config, s: DiskState): StatsRow
  {
    var st := s.stats;
    StatsRow(st.elapsedTime, Iops(st), BandwidthHost(st, c.pageSize), WriteAmplification(st),
             st.hostPageWriteRequest, st.hostPageReadRequest, st.pageWriteExecuted, st.pageReadExecuted,
             st.blockEraseExecuted, st.pageWriteFailed, TotalCount(s.ftl, PageDirty))
  }

  // ---------------------------------------------------------------------------------------
  // Sums over the blocks a collector pass takes
  // ---------------------------------------------------------------------------------------

  /** Number of the blocks 0 .. n-1 that qualify for collection in `s`. */
  function QualifyingBlocks(c: Config, s: DiskState, forceRun: bool, n: nat): nat
    requires Shaped(c, s) && n <= c.totalBlocks
  {
    if n == 0 then 0
    else QualifyingBlocks(c, s, forceRun, n - 1) + (if Qualifies(c, s.ftl[n - 1], forceRun) then 1 else 0)
  }

  /** Live pages of the blocks 0 .. n-1 that qualify for collection in `s`. */
  function QualifyingLive(c: Config, s: DiskState, forceRun: bool, n: nat): nat
    requires Shaped(c, s) && n <= c.totalBlocks
  {
    if n == 0 then 0
    else QualifyingLive(c, s, forceRun, n - 1)
         + (if Qualifies(c, s.ftl[n - 1], forceRun) then Count(s.ftl[n - 1].pages, PageInUse) else 0)
  }

  /** The counters after a pass that cleaned `blocks` blocks holding `live` live pages in
      all: a read and a write per live page and an erase per block, nothing else. */
  function PassCharge(c: Config, st: Counters, live: nat, blocks: nat): Counters
  {
    st.(elapsedTime := st.elapsedTime + Times(live, c.readPageTime + c.writePageTime) + Times(blocks, c.eraseBlockTime),
        pageReadExecuted := st.pageReadExecuted + live,
        pageWriteExecuted := st.pageWriteExecuted + live,
        blockEraseExecuted := st.blockEraseExecuted + blocks)
  }

  // ---------------------------------------------------------------------------------------
  // Lemmas
  // ---------------------------------------------------------------------------------------

  /** A new disk: every page empty, no dirty page, counters at zero. */
  lemma InitialState(c: Config)
    requires ConfigOk(c)
    ensures WellFormed(c, Initial(c))
    ensures TotalCount(Initial(c).ftl, PageEmpty) == c.totalBlocks * c.pagesPerBlock
    ensures TotalCount(Initial(c).ftl, PageDirty) == 0
    ensures TotalCount(Initial(c).ftl, PageInUse) == 0
  {
    var s := Initial(c);
    CountUniform(c.pagesPerBlock, PageEmpty, PageEmpty);
    CountUniform(c.pagesPerBlock, PageEmpty, PageDirty);
    CountUniform(c.pagesPerBlock, PageEmpty, PageInUse);
    TotalCountOfBlocks(s.ftl, PageEmpty, c.pagesPerBlock);
    TotalCountOfBlocks(s.ftl, PageDirty, 0);
    TotalCountOfBlocks(s.ftl, PageInUse, 0);
    TimesIsProduct(c.totalBlocks, c.pagesPerBlock);
    TimesIsProduct(c.totalBlocks, 0);
  }

  lemma {:induction false} TotalCountOfBlocks(ftl: seq<BlockState>, x: PageStatus, k: nat)
    requires forall b :: 0 <= b < |ftl| ==> Count(ftl[b].pages, x) == k
    ensures TotalCount(ftl, x) == Times(|ftl|, k)
    decreases |ftl|
  {
    if |ftl| > 0 {
      TotalCountOfBlocks(ftl[..|ftl| - 1], x, k);
    }
  }

  /** Across the disk every page is empty, in use or dirty: in-use pages are the total minus
      the empty and the dirty ones (number_of_in_use_pages). */
  lemma TotalPartition(ftl: seq<BlockState>, pagesPerBlock: nat)
    requires forall b :: 0 <= b < |ftl| ==> |ftl[b].pages| == pagesPerBlock
    ensures TotalCount(ftl, PageInUse)
            == |ftl| * pagesPerBlock - (TotalCount(ftl, PageEmpty) + TotalCount(ftl, PageDirty))
  {
    TotalSum(ftl, pagesPerBlock);
    TimesIsProduct(|ftl|, pagesPerBlock);
  }

  lemma {:induction false} TotalSum(ftl: seq<BlockState>, pagesPerBlock: nat)
    requires forall b :: 0 <= b < |ftl| ==> |ftl[b].pages| == pagesPerBlock
    ensures TotalCount(ftl, PageEmpty) + TotalCount(ftl, PageInUse) + TotalCount(ftl, PageDirty)
            == Times(|ftl|, pagesPerBlock)
    decreases |ftl|
  {
    if |ftl| > 0 {
      TotalSum(ftl[..|ftl| - 1], pagesPerBlock);
      CountPartition(ftl[|ftl| - 1].pages);
    }
  }

  /** Every raw write keeps the block counters exact. */
  lemma RawWriteWellFormed(c: Config, s: DiskState, block: nat, page: nat, deathTime: int)
    requires WellFormed(c, s) && block < c.totalBlocks && page < c.pagesPerBlock
    ensures WellFormed(c, RawWrite(c, s, block, page, deathTime).0)
  {
    var pages := s.ftl[block].pages;
    if pages[page] == PageEmpty {
      FillCounts(pages, page);
    } else if pages[page] == PageInUse && s.ftl[block].empty > 0 {
      CountPositiveFound(pages, PageEmpty);
      MoveCounts(pages, page, FirstIndexOf(pages, PageEmpty));
    }
  }

  /** Filling an empty page. */
  lemma FillCounts(pages: seq<PageStatus>, page: nat)
    requires page < |pages| && pages[page] == PageEmpty
    ensures var t := pages[page := PageInUse];
      && Count(t, PageEmpty) == Count(pages, PageEmpty) - 1
      && Count(t, PageInUse) == Count(pages, PageInUse) + 1
      && Count(t, PageDirty) == Count(pages, PageDirty)
  {
    CountUpdate(pages, page, PageInUse, PageEmpty);
    CountUpdate(pages, page, PageInUse, PageInUse);
    CountUpdate(pages, page, PageInUse, PageDirty);
  }

  /** Moving live data from `page` to the empty page `np`, leaving `page` dirty. */
  lemma MoveCounts(pages: seq<PageStatus>, page: nat, np: nat)
    requires page < |pages| && np < |pages|
    requires pages[page] == PageInUse && pages[np] == PageEmpty
    ensures var t := pages[page := PageDirty][np := PageInUse];
      && Count(t, PageEmpty) == Count(pages, PageEmpty) - 1
      && Count(t, PageInUse) == Count(pages, PageInUse)
      && Count(t, PageDirty) == Count(pages, PageDirty) + 1
  {
    var mid := pages[page := PageDirty];
    CountUpdate(pages, page, PageDirty, PageEmpty);
    CountUpdate(pages, page, PageDirty, PageInUse);
    CountUpdate(pages, page, PageDirty, PageDirty);
    CountUpdate(mid, np, PageInUse, PageEmpty);
    CountUpdate(mid, np, PageInUse, PageInUse);
    CountUpdate(mid, np, PageInUse, PageDirty);
  }

  /** The outcome of a raw write decides its counters: a disk-full refusal is the only
      failure counted, and under the default policy every success writes one page. */
  lemma RawWriteEffect(c: Config, s: DiskState, block: nat, page: nat, deathTime: int)
    requires WellFormed(c, s) && block < c.totalBlocks && page < c.pagesPerBlock
    ensures var (t, out) := RawWrite(c, s, block, page, deathTime);
      && WellFormed(c, t)
      && t.lastRun == s.lastRun
      && (out.0 <==> out.1 == OperationSuccess)
      && t.stats.pageWriteFailed == s.stats.pageWriteFailed + (if out.1 == OperationFailedDiskFull then 1 else 0)
      && t.stats.hostPageWriteRequest == s.stats.hostPageWriteRequest
      && t.stats.hostPageReadRequest == s.stats.hostPageReadRequest
      && t.stats.pageReadExecuted == s.stats.pageReadExecuted
      && t.stats.blockEraseExecuted == s.stats.blockEraseExecuted
      && t.stats.gcForcedCount == s.stats.gcForcedCount
      && CountersGrow(s.stats, t.stats)
      && ((forall b, p :: !c.fullBlockWritePolicy(b, p)) ==>
            t.stats.pageWriteExecuted == s.stats.pageWriteExecuted + (if out.0 then 1 else 0))
  {
    RawWriteWellFormed(c, s, block, page, deathTime);
  }

  /** A write to an empty page stores the data and its death time in that very page. */
  lemma RawWriteFreshPage(c: Config, s: DiskState, block: nat, page: nat, deathTime: int)
    requires WellFormed(c, s) && block < c.totalBlocks && page < c.pagesPerBlock
    requires s.ftl[block].pages[page] == PageEmpty
    ensures var (t, out) := RawWrite(c, s, block, page, deathTime);
      && out == (true, OperationSuccess)
      && t.ftl[block].pages[page] == PageInUse
      && t.deathTimes[block][page] == deathTime
      && Count(t.ftl[block].pages, PageInUse) == Count(s.ftl[block].pages, PageInUse) + 1
      && t.ftl[block].empty == s.ftl[block].empty - 1
      && t.ftl[block].dirty == s.ftl[block].dirty
      && (forall q :: 0 <= q < c.pagesPerBlock && q != page ==> t.ftl[block].pages[q] == s.ftl[block].pages[q])
      && (forall b :: 0 <= b < c.totalBlocks && b != block ==> t.ftl[b] == s.ftl[b])
      && t.stats == s.stats.(elapsedTime := s.stats.elapsedTime + c.writePageTime,
                             pageWriteExecuted := s.stats.pageWriteExecuted + 1)
  {
    FillCounts(s.ftl[block].pages, page);
  }

  /** An update of a live page in a block with room: the old copy turns dirty and the data
      moves to the lowest-numbered empty page of the same block; the number of live pages
      does not change and the moved data keeps no death time of its own. */
  lemma RawWriteUpdate(c: Config, s: DiskState, block: nat, page: nat, deathTime: int)
    requires WellFormed(c, s) && block < c.totalBlocks && page < c.pagesPerBlock
    requires s.ftl[block].pages[page] == PageInUse && s.ftl[block].empty > 0
    ensures var (t, out) := RawWrite(c, s, block, page, deathTime);
      var np := FirstIndexOf(s.ftl[block].pages, PageEmpty);
      && out == (true, OperationSuccess)
      && np < c.pagesPerBlock && np != page
      && s.ftl[block].pages[np] == PageEmpty
      && (forall q :: 0 <= q < np ==> s.ftl[block].pages[q] != PageEmpty)
      && t.ftl[block].pages[page] == PageDirty
      && t.ftl[block].pages[np] == PageInUse
      && (forall q :: 0 <= q < c.pagesPerBlock && q != page && q != np ==>
            t.ftl[block].pages[q] == s.ftl[block].pages[q])
      && Count(t.ftl[block].pages, PageInUse) == Count(s.ftl[block].pages, PageInUse)
      && t.ftl[block].empty == s.ftl[block].empty - 1
      && t.ftl[block].dirty == s.ftl[block].dirty + 1
      && (forall b :: 0 <= b < c.totalBlocks && b != block ==> t.ftl[b] == s.ftl[b])
      && t.deathTimes == s.deathTimes
      && t.stats == s.stats.(elapsedTime := s.stats.elapsedTime + c.writePageTime,
                             pageWriteExecuted := s.stats.pageWriteExecuted + 1)
  {
    var pages := s.ftl[block].pages;
    CountPositiveFound(pages, PageEmpty);
    MoveCounts(pages, page, FirstIndexOf(pages, PageEmpty));
  }

  /** An update of a live page in a full block: the write policy decides; a refusal is a
      disk-full failure that only bumps the failure counter. */
  lemma RawWriteFullBlock(c: Config, s: DiskState, block: nat, page: nat, deathTime: int)
    requires WellFormed(c, s) && block < c.totalBlocks && page < c.pagesPerBlock
    requires s.ftl[block].pages[page] == PageInUse && s.ftl[block].empty <= 0
    ensures var (t, out) := RawWrite(c, s, block, page, deathTime);
      && (out.0 <==> c.fullBlockWritePolicy(block, page))
      && (out.0 ==> out.1 == OperationSuccess && t == s)
      && (!out.0 ==> out.1 == OperationFailedDiskFull
                     && t == s.(stats := s.stats.(pageWriteFailed := s.stats.pageWriteFailed + 1)))
  {
  }

  /** A write to a dirty page is discarded without touching anything. */
  lemma RawWriteDirtyPage(c: Config, s: DiskState, block: nat, page: nat, deathTime: int)
    requires WellFormed(c, s) && block < c.totalBlocks && page < c.pagesPerBlock
    requires s.ftl[block].pages[page] == PageDirty
    ensures RawWrite(c, s, block, page, deathTime) == (s, (false, OperationFailedDirty))
  {
  }

  /** A read succeeds exactly on a live page and never changes a page status. */
  lemma RawReadEffect(c: Config, s: DiskState, block: nat, page: nat)
    requires WellFormed(c, s) && block < c.totalBlocks && page < c.pagesPerBlock
    ensures var (t, out) := RawRead(c, s, block, page);
      && WellFormed(c, t)
      && t.ftl == s.ftl && t.deathTimes == s.deathTimes && t.lastRun == s.lastRun
      && (out.0 <==> s.ftl[block].pages[page] == PageInUse)
      && out == (if out.0 then (true, OperationSuccess) else (false, OperationFailedDirty))
      && t.stats == (if out.0 then s.stats.(elapsedTime := s.stats.elapsedTime + c.readPageTime,
                                            pageReadExecuted := s.stats.pageReadExecuted + 1)
                     else s.stats)
  {
  }

  /** Erasing leaves a block of empty pages whose counters agree with it. */
  lemma EraseBlockEffect(c: Config, s: DiskState, block: nat)
    requires WellFormed(c, s) && block < c.totalBlocks
    ensures var t := EraseBlock(c, s, block);
      && WellFormed(c, t)
      && Count(t.ftl[block].pages, PageEmpty) == c.pagesPerBlock
      && Count(t.ftl[block].pages, PageDirty) == 0
      && Count(t.ftl[block].pages, PageInUse) == 0
      && t.ftl[block].empty == c.pagesPerBlock && t.ftl[block].dirty == 0
      && (forall b :: 0 <= b < c.totalBlocks && b != block ==> t.ftl[b] == s.ftl[b])
      && t.deathTimes == s.deathTimes && t.lastRun == s.lastRun
      && t.stats == s.stats.(blockEraseExecuted := s.stats.blockEraseExecuted + 1,
                             elapsedTime := s.stats.elapsedTime + c.eraseBlockTime)
  {
    CountUniform(c.pagesPerBlock, PageEmpty, PageEmpty);
    CountUniform(c.pagesPerBlock, PageEmpty, PageDirty);
    CountUniform(c.pagesPerBlock, PageEmpty, PageInUse);
  }

  /** Compaction keeps the live pages, frees every other page and leaves nothing dirty. */
  lemma {:induction false} CompactionCounts(pages: seq<PageStatus>)
    ensures Count(AfterCompaction(pages), PageInUse) == Count(pages, PageInUse)
    ensures Count(AfterCompaction(pages), PageDirty) == 0
    ensures Count(AfterCompaction(pages), PageEmpty) == |pages| - Count(pages, PageInUse)
    decreases |pages|
  {
    if |pages| > 0 {
      var n := |pages| - 1;
      assert AfterCompaction(pages)[..n] == AfterCompaction(pages[..n]);
      CompactionCounts(pages[..n]);
    }
  }

  /** Cleaning a block keeps the disk well formed: its live pages stay live at their index,
      it has no dirty page left, and its empty counter is the pages it did not keep. */
  lemma ExecuteGcBlockWellFormed(c: Config, s: DiskState, block: nat)
    requires WellFormed(c, s) && block < c.totalBlocks
    ensures var t := ExecuteGcBlock(c, s, block);
      && WellFormed(c, t)
      && t.lastRun == s.lastRun
      && (forall p :: 0 <= p < c.pagesPerBlock ==>
            (t.ftl[block].pages[p] == PageInUse <==> s.ftl[block].pages[p] == PageInUse))
      && Count(t.ftl[block].pages, PageDirty) == 0
      && t.ftl[block].empty == c.pagesPerBlock - Count(s.ftl[block].pages, PageInUse)
      && (forall b :: 0 <= b < c.totalBlocks && b != block ==> t.ftl[b] == s.ftl[b])
  {
    CompactionCounts(s.ftl[block].pages);
  }

  /** A full collector pass keeps the block counters exact and the statistics non-negative. */
  lemma GcPassWellFormed(c: Config, s: DiskState, forceRun: bool)
    requires WellFormed(c, s)
    ensures WellFormed(c, GcPass(c, s, forceRun, c.totalBlocks).0)
  {
    var t := GcPass(c, s, forceRun, c.totalBlocks).0;
    forall b | 0 <= b < c.totalBlocks
      ensures BlockOk(t.ftl[b], c.pagesPerBlock)
    {
      CompactionCounts(s.ftl[b].pages);
      CountPartition(s.ftl[b].pages);
    }
  }

  /** run_gc's loop body: visiting block n (judged on the state reached so far, as the
      source does) and cleaning it when it qualifies takes the pass over 0 .. n-1 to the
      pass over 0 .. n. */
  lemma GcPassStep(c: Config, s: DiskState, forceRun: bool, n: nat)
    requires Shaped(c, s) && n < c.totalBlocks
    ensures var (prev, ran) := GcPass(c, s, forceRun, n);
      GcPass(c, s, forceRun, n + 1)
      == if Qualifies(c, prev.ftl[n], forceRun) then (ExecuteGcBlock(c, prev, n), true) else (prev, ran)
  {
    var (prev, ran) := GcPass(c, s, forceRun, n);
    var next := GcPass(c, s, forceRun, n + 1).0;
    assert prev.ftl[n] == s.ftl[n];
    assert prev.deathTimes[n] == s.deathTimes[n];
    if Qualifies(c, s.ftl[n], forceRun) {
      var t := ExecuteGcBlock(c, prev, n);
      assert next.ftl == t.ftl;
      assert next.deathTimes == t.deathTimes;
      ChargeCompose(c, s.stats, QualifyingLive(c, s, forceRun, n), QualifyingBlocks(c, s, forceRun, n),
                    Count(s.ftl[n].pages, PageInUse));
    } else {
      assert next.ftl == prev.ftl;
      assert next.deathTimes == prev.deathTimes;
    }
  }

  /** Before run_gc's loop visits any block, the pass has changed nothing. */
  lemma GcPassStart(c: Config, s: DiskState, forceRun: bool)
    requires Shaped(c, s)
    ensures GcPass(c, s, forceRun, 0) == (s, false)
  {
    var t := GcPass(c, s, forceRun, 0).0;
    assert t.ftl == s.ftl;
    assert t.deathTimes == s.deathTimes;
  }

  /** The pass reports a run exactly when some visited block qualified. */
  lemma {:induction false} GcPassRan(c: Config, s: DiskState, forceRun: bool, n: nat)
    requires Shaped(c, s) && n <= c.totalBlocks
    ensures GcPass(c, s, forceRun, n).1 <==> exists b :: 0 <= b < n && Qualifies(c, s.ftl[b], forceRun)
    decreases n
  {
    if n > 0 {
      GcPassRan(c, s, forceRun, n - 1);
    }
  }

  /** Cleaning one more block adds its charge to the pass total. */
  lemma ChargeCompose(c: Config, st: Counters, l0: nat, k0: nat, live: nat)
    ensures GcCharge(c, PassCharge(c, st, l0, k0), live) == PassCharge(c, st, l0 + live, k0 + 1)
  {
    var r := c.readPageTime;
    var w := c.writePageTime;
    var e := c.eraseBlockTime;
    TimesIsProduct(l0 + live, r + w);
    TimesIsProduct(l0, r + w);
    TimesIsProduct(live, r);
    TimesIsProduct(live, w);
    TimesIsProduct(k0 + 1, e);
    TimesIsProduct(k0, e);
    assert (l0 + live) * (r + w) == l0 * (r + w) + live * r + live * w;
    assert (k0 + 1) * e == k0 * e + e;
  }

  /** run_gc with the run-once request only selects the most dirty block (ties to the
      lowest index) and changes nothing. */
  lemma RunGcRunOnce(c: Config, s: DiskState, forceRun: bool)
    requires WellFormed(c, s)
    ensures var (t, out) := RunGc(c, s, forceRun, true);
      && t == s && out.SelectedBlock?
      && var best := MostDirtyBlock(DirtyCounts(s.ftl));
         && out.block == best.1
         && (forall b :: 0 <= b < c.totalBlocks ==> Count(s.ftl[b].pages, PageDirty) <= best.0)
         && (forall b :: 0 <= b < out.block ==> Count(s.ftl[b].pages, PageDirty) < best.0)
         && (best.0 > 0 ==> out.block < c.totalBlocks && Count(s.ftl[out.block].pages, PageDirty) == best.0)
  {
    var counts := DirtyCounts(s.ftl);
    assert forall b :: 0 <= b < c.totalBlocks ==> counts[b] == Count(s.ftl[b].pages, PageDirty);
  }

  /** What run_gc does to the disk otherwise: nothing unless the collector's time gate opens,
      and a pass never touches the host counters, the failure tallies, the time of the
      collector's last run, or which pages are live. */
  lemma RunGcEffect(c: Config, s: DiskState, forceRun: bool, runOnce: bool)
    requires WellFormed(c, s)
    ensures var (t, out) := RunGc(c, s, forceRun, runOnce);
      && (runOnce ==> t == s && out.SelectedBlock?)
      && (!runOnce && !CollectorRuns(c.collector, s.stats.elapsedTime, s.lastRun, forceRun) ==>
            t == s && out == Executed(false))
      && (!runOnce ==> out.Executed? && (out.ran ==> CollectorRuns(c.collector, s.stats.elapsedTime, s.lastRun, forceRun)))
      && t.lastRun == s.lastRun
      && t.stats.hostPageWriteRequest == s.stats.hostPageWriteRequest
      && t.stats.hostPageReadRequest == s.stats.hostPageReadRequest
      && t.stats.pageWriteFailed == s.stats.pageWriteFailed
      && t.stats.gcForcedCount == s.stats.gcForcedCount
      && CountersGrow(s.stats, t.stats)
  {
    if !runOnce && CollectorRuns(c.collector, s.stats.elapsedTime, s.lastRun, forceRun) {
      var (t, ran) := GcPass(c, s, forceRun, c.totalBlocks);
      assert RunGc(c, s, forceRun, runOnce) == (t, Executed(ran));
    }
  }

  /** No collector turn changes which pages are live. */
  lemma RunGcKeepsLive(c: Config, s: DiskState, forceRun: bool, runOnce: bool)
    requires WellFormed(c, s)
    ensures var t := RunGc(c, s, forceRun, runOnce).0;
      forall b, p :: 0 <= b < c.totalBlocks && 0 <= p < c.pagesPerBlock ==>
        (t.ftl[b].pages[p] == PageInUse <==> s.ftl[b].pages[p] == PageInUse)
  {
    if !runOnce && CollectorRuns(c.collector, s.stats.elapsedTime, s.lastRun, forceRun) {
      var t := GcPass(c, s, forceRun, c.totalBlocks).0;
      assert RunGc(c, s, forceRun, runOnce).0 == t;
      forall b, p | 0 <= b < c.totalBlocks && 0 <= p < c.pagesPerBlock
        ensures t.ftl[b].pages[p] == PageInUse <==> s.ftl[b].pages[p] == PageInUse
      {
        assert t.ftl[b] == if Cleaned(c, s, forceRun, c.totalBlocks, b)
                           then CompactedBlock(s.ftl[b], c.pagesPerBlock) else s.ftl[b];
      }
    }
  }

  /** host_write_page's bookkeeping: one host write is counted exactly when the write went
      through, a final disk-full outcome leaves one failure on the tally (the failure that
      caused the retry is taken back), and the disk stays well formed. */
  lemma {:induction false} HostWriteEffect(c: Config, s: DiskState, block: nat, page: nat, deathTime: int,
                                           gcWasForced: bool, runGcOnce: bool)
    requires WellFormed(c, s) && block < c.totalBlocks && page < c.pagesPerBlock
    ensures var (t, out) := HostWrite(c, s, block, page, deathTime, gcWasForced, runGcOnce);
      && WellFormed(c, t)
      && t.lastRun == s.lastRun
      && (out.0 <==> out.1 == OperationSuccess)
      && t.stats.hostPageWriteRequest == s.stats.hostPageWriteRequest + (if out.0 then 1 else 0)
      && t.stats.pageWriteFailed == s.stats.pageWriteFailed + (if out.1 == OperationFailedDiskFull then 1 else 0)
      && t.stats.hostPageReadRequest == s.stats.hostPageReadRequest
      && CountersGrow(s.stats, t.stats)
    decreases if gcWasForced then 0 else 1
  {
    RunGcEffect(c, s, gcWasForced, runGcOnce);
    var afterGc := RunGc(c, s, gcWasForced, runGcOnce).0;
    RawWriteEffect(c, afterGc, block, page, deathTime);
    var (written, out) := RawWrite(c, afterGc, block, page, deathTime);
    if !out.0 && !gcWasForced && out.1 == OperationFailedDiskFull {
      HostWriteEffect(c, RetryState(written), block, page, deathTime, true, false);
    }
  }

  /** The retry rule: only a disk-full outcome of an unforced write is retried, once, with a
      forced collector run; the retry never ends on a dirty page, because a collector pass
      keeps every live page live. Any other first outcome is final. */
  lemma HostWriteRetry(c: Config, s: DiskState, block: nat, page: nat, deathTime: int,
                       gcWasForced: bool, runGcOnce: bool)
    requires WellFormed(c, s) && block < c.totalBlocks && page < c.pagesPerBlock
    ensures var first := RawWrite(c, RunGc(c, s, gcWasForced, runGcOnce).0, block, page, deathTime);
      var (t, out) := HostWrite(c, s, block, page, deathTime, gcWasForced, runGcOnce);
      if !gcWasForced && first.1 == (false, OperationFailedDiskFull) then
        && (t, out) == HostWrite(c, RetryState(first.0), block, page, deathTime, true, false)
        && out.1 != OperationFailedDirty
        && t.stats.gcForcedCount == s.stats.gcForcedCount + 1
      else
        && out == first.1
        && t.stats.gcForcedCount == s.stats.gcForcedCount
  {
    RunGcEffect(c, s, gcWasForced, runGcOnce);
    var afterGc := RunGc(c, s, gcWasForced, runGcOnce).0;
    RawWriteEffect(c, afterGc, block, page, deathTime);
    var first := RawWrite(c, afterGc, block, page, deathTime);
    if !gcWasForced && first.1 == (false, OperationFailedDiskFull) {
      var retry := RetryState(first.0);
      assert retry.ftl[block].pages[page] == PageInUse;
      ForcedRetryOnLivePage(c, retry, block, page, deathTime);
    }
  }

  /** The forced retry targets a live page, which the forced collector pass keeps live, so
      it cannot end on a dirty page and is not retried again. */
  lemma ForcedRetryOnLivePage(c: Config, s: DiskState, block: nat, page: nat, deathTime: int)
    requires WellFormed(c, s) && block < c.totalBlocks && page < c.pagesPerBlock
    requires s.ftl[block].pages[page] == PageInUse
    ensures var (t, out) := HostWrite(c, s, block, page, deathTime, true, false);
      && out.1 != OperationFailedDirty
      && t.stats.gcForcedCount == s.stats.gcForcedCount
  {
    RunGcEffect(c, s, true, false);
    RunGcKeepsLive(c, s, true, false);
    var again := RunGc(c, s, true, false).0;
    RawWriteEffect(c, again, block, page, deathTime);
    assert again.ftl[block].pages[page] == PageInUse;
  }

  /** host_read_page: after the collector's turn, the read succeeds exactly on a live page and
      one host read is counted exactly when it does. */
  lemma HostReadEffect(c: Config, s: DiskState, block: nat, page: nat)
    requires WellFormed(c, s) && block < c.totalBlocks && page < c.pagesPerBlock
    ensures var afterGc := RunGc(c, s, false, false).0;
      var (t, out) := HostRead(c, s, block, page);
      && WellFormed(c, t)
      && t.ftl == afterGc.ftl && t.deathTimes == afterGc.deathTimes
      && (out.0 <==> s.ftl[block].pages[page] == PageInUse)
      && out == (if out.0 then (true, OperationSuccess) else (false, OperationFailedDirty))
      && t.stats.hostPageReadRequest == s.stats.hostPageReadRequest + (if out.0 then 1 else 0)
      && t.stats.pageReadExecuted == afterGc.stats.pageReadExecuted + (if out.0 then 1 else 0)
      && t.stats.hostPageWriteRequest == s.stats.hostPageWriteRequest
      && t.stats.pageWriteFailed == s.stats.pageWriteFailed
      && CountersGrow(s.stats, t.stats)
  {
    RunGcEffect(c, s, false, false);
    RunGcKeepsLive(c, s, false, false);
    RawReadEffect(c, RunGc(c, s, false, false).0, block, page);
  }

  /** host_deathtime_page_write: a fresh write with death time -1 lands in the requested page
      with no collector turn; a fresh write with any other death time is the placement
      search's error and changes nothing; an update becomes a write of block 0, page 0 with
      death time -1 and a run-once collector request, which leaves the disk as it was before
      that write's raw step. */
  lemma HostDeathtimeWriteEffect(c: Config, s: DiskState, block: nat, page: nat, deathTime: int)
    requires WellFormed(c, s) && block < c.totalBlocks && page < c.pagesPerBlock
    ensures var r := HostDeathtimeWrite(c, s, block, page, deathTime);
      && (r.Success? ==> WellFormed(c, r.value.0))
      && (s.ftl[block].pages[page] == PageEmpty && deathTime == -1 ==>
            && r.Success?
            && r.value.1 == (true, OperationSuccess)
            && r.value.0.ftl[block].pages[page] == PageInUse
            && r.value.0.deathTimes[block][page] == -1
            && (forall b :: 0 <= b < c.totalBlocks && b != block ==> r.value.0.ftl[b] == s.ftl[b])
            && r.value.0.stats == s.stats.(elapsedTime := s.stats.elapsedTime + c.writePageTime,
                                           pageWriteExecuted := s.stats.pageWriteExecuted + 1,
                                           hostPageWriteRequest := s.stats.hostPageWriteRequest + 1))
      && (s.ftl[block].pages[page] == PageEmpty && deathTime != -1 ==> r == Failure(DeathTimeScoreError))
      && (s.ftl[block].pages[page] != PageEmpty ==>
            && r == Success(HostWrite(c, s, 0, 0, -1, false, true))
            && RunGc(c, s, false, true).0 == s)
  {
    if s.ftl[block].pages[page] == PageEmpty {
      if deathTime == -1 {
        RawWriteFreshPage(c, s, block, page, deathTime);
        RawWriteEffect(c, s, block, page, deathTime);
      }
    } else {
      HostWriteEffect(c, s, 0, 0, -1, false, true);
    }
  }

  /** is_write_failing turns true with the first disk-full outcome and stays as it was
      otherwise. */
  lemma WriteFailingAfterDiskFull(c: Config, s: DiskState, block: nat, page: nat, deathTime: int,
                                  gcWasForced: bool, runGcOnce: bool)
    requires WellFormed(c, s) && block < c.totalBlocks && page < c.pagesPerBlock
    ensures var (t, out) := HostWrite(c, s, block, page, deathTime, gcWasForced, runGcOnce);
      && (out.1 == OperationFailedDiskFull ==> IsWriteFailing(t.stats))
      && (out.1 != OperationFailedDiskFull ==> IsWriteFailing(t.stats) == IsWriteFailing(s.stats))
  {
    HostWriteEffect(c, s, block, page, deathTime, gcWasForced, runGcOnce);
  }

  /** Under the default policy (a full block never accepts an update) the disk writes at least
      one page per host write, so the write amplification never drops below 1. */
  lemma {:induction false} DefaultPolicyAmplification(c: Config, s: DiskState, block: nat, page: nat, deathTime: int,
                                                      gcWasForced: bool, runGcOnce: bool)
    requires WellFormed(c, s) && block < c.totalBlocks && page < c.pagesPerBlock
    requires forall b, p :: !c.fullBlockWritePolicy(b, p)
    requires s.stats.pageWriteExecuted >= s.stats.hostPageWriteRequest
    ensures var t := HostWrite(c, s, block, page, deathTime, gcWasForced, runGcOnce).0;
      && t.stats.pageWriteExecuted >= t.stats.hostPageWriteRequest
      && (t.stats.hostPageWriteRequest > 0 ==> WriteAmplification(t.stats) >= 1.0)
    decreases if gcWasForced then 0 else 1
  {
    RunGcEffect(c, s, gcWasForced, runGcOnce);
    var afterGc := RunGc(c, s, gcWasForced, runGcOnce).0;
    RawWriteEffect(c, afterGc, block, page, deathTime);
    var (written, out) := RawWrite(c, afterGc, block, page, deathTime);
    var t := HostWrite(c, s, block, page, deathTime, gcWasForced, runGcOnce).0;
    if !out.0 && !gcWasForced && out.1 == OperationFailedDiskFull {
      DefaultPolicyAmplification(c, RetryState(written), block, page, deathTime, true, false);
    } else if t.stats.hostPageWriteRequest > 0 {
      AmplificationAtLeastOne(t.stats);
    }
  }

  lemma AmplificationAtLeastOne(st: Counters)
    requires st.hostPageWriteRequest > 0 && st.pageWriteExecuted >= st.hostPageWriteRequest
    ensures WriteAmplification(st) >= 1.0
  {
    var h := st.hostPageWriteRequest as real;
    var w := st.pageWriteExecuted as real;
    assert WriteAmplification(st) * h == w;
    if WriteAmplification(st) < 1.0 {
      assert WriteAmplification(st) * h < h;
    }
  }
}
