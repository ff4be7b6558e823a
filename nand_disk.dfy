/** The NAND disk as the object the simulator drives: the attributes of BaseNANDDisk, the
    plugged-in collector and write policy, and its methods updating the FTL table, the
    death-time table and the counters in place. Every state-changing method is proved to
    take the disk exactly where the matching DiskModel function says. */
module NandDisk {
  import opened NandCommon
  import opened GarbageCollectorInterface
  import opened DiskModel

  class NandDisk {
    // physical characteristics
    const totalBlocks: nat
    const pagesPerBlock: nat
    const pageSize: int
    const totalPages: nat
    const blockSize: int
    const totalDiskSize: int
    const writePageTime: int
    const readPageTime: int
    const eraseBlockTime: int
    // the mixed-in collector and the full-block write policy
    const collector: Collector
    const fullBlockWritePolicy: (nat, nat) -> bool

    // internal state
    var ftl: seq<BlockState>
    var deathTimes: seq<seq<int>>
    var stats: Counters
    /** The simple collector's time of its last run. */
    var lastRun: int

    function Cfg(): Config
    {
      Config(totalBlocks, pagesPerBlock, pageSize, writePageTime, readPageTime, eraseBlockTime,
             collector, fullBlockWritePolicy)
    }

    ghost function State(): DiskState
      reads this
    {
      DiskState(ftl, deathTimes, stats, lastRun)
    }

    ghost predicate Valid()
      reads this
    {
      && WellFormed(Cfg(), State())
      && totalPages == Times(totalBlocks, pagesPerBlock)
    }

    /** Builds the disk with every page empty, every death time -1 and all counters at zero. */
    constructor (totalBlocks: nat, pagesPerBlock: nat, pageSize: int, writePageTime: int,
                 readPageTime: int, eraseBlockTime: int, collector: Collector,
                 fullBlockWritePolicy: (nat, nat) -> bool)
      requires totalBlocks > 0 && pagesPerBlock > 0 && pageSize > 0
      requires writePageTime > 0 && readPageTime > 0 && eraseBlockTime > 0
      ensures Valid()
      ensures State() == Initial(Cfg())
      ensures this.totalBlocks == totalBlocks && this.pagesPerBlock == pagesPerBlock
      ensures this.pageSize == pageSize && this.writePageTime == writePageTime
      ensures this.readPageTime == readPageTime && this.eraseBlockTime == eraseBlockTime
      ensures this.collector == collector && this.fullBlockWritePolicy == fullBlockWritePolicy
      ensures this.totalPages == pagesPerBlock * totalBlocks
      ensures this.blockSize == pageSize * pagesPerBlock
      ensures this.totalDiskSize == this.totalPages * pageSize
    {
      var emptyBlock := BlockState(seq(pagesPerBlock, _ => PageEmpty), pagesPerBlock, 0);
      var freshDeathTimes := seq(pagesPerBlock, _ => -1);
      var table: seq<BlockState> := [];
      var deaths: seq<seq<int>> := [];
      for b := 0 to totalBlocks
        invariant table == seq(b, _ => emptyBlock)
        invariant deaths == seq(b, _ => freshDeathTimes)
      {
        var pages: seq<PageStatus> := [];
        for p := 0 to pagesPerBlock
          invariant pages == seq(p, _ => PageEmpty)
        {
          pages := pages + [PageEmpty];
        }
        table := table + [BlockState(pages, pagesPerBlock, 0)];
        deaths := deaths + [freshDeathTimes];
      }
      this.totalBlocks := totalBlocks;
      this.pagesPerBlock := pagesPerBlock;
      this.pageSize := pageSize;
      this.totalPages := pagesPerBlock * totalBlocks;
      this.blockSize := pageSize * pagesPerBlock;
      this.totalDiskSize := pagesPerBlock * totalBlocks * pageSize;
      this.writePageTime := writePageTime;
      this.readPageTime := readPageTime;
      this.eraseBlockTime := eraseBlockTime;
      this.collector := collector;
      this.fullBlockWritePolicy := fullBlockWritePolicy;
      ftl := table;
      deathTimes := deaths;
      stats := ZeroCounters;
      lastRun := 0;
      new;
      InitialState(Cfg());
      TimesIsProduct(totalBlocks, pagesPerBlock);
    }

    /** get_empty_page: the lowest-numbered empty page of the block, or None (the source
        raises ValueError) when the block's empty counter is not positive. */
    method GetEmptyPage(block: nat) returns (found: Option<nat>)
      requires Valid() && block < totalBlocks
      ensures found.None? <==> ftl[block].empty <= 0
      ensures found.Some? ==> found.value == FirstIndexOf(ftl[block].pages, PageEmpty)
      ensures found.Some? ==> found.value < pagesPerBlock && ftl[block].pages[found.value] == PageEmpty
    {
      if ftl[block].empty <= 0 {
        return None;
      }
      var pages := ftl[block].pages;
      CountPositiveFound(pages, PageEmpty);
      var p := 0;
      while pages[p] != PageEmpty
        invariant p <= FirstIndexOf(pages, PageEmpty)
        decreases pagesPerBlock - p
      {
        p := p + 1;
      }
      return Some(p);
    }

    /** get_empty_block: the lowest-numbered block whose pages are all empty, as (True, b),
        or (False, 0) when there is none. */
    method GetEmptyBlock() returns (found: bool, block: nat)
      requires Valid()
      ensures found ==> block < totalBlocks && ftl[block].empty == pagesPerBlock
      ensures found ==> forall b :: 0 <= b < block ==> ftl[b].empty != pagesPerBlock
      ensures !found ==> block == 0 && forall b :: 0 <= b < totalBlocks ==> ftl[b].empty != pagesPerBlock
    {
      for b := 0 to totalBlocks
        invariant forall b' :: 0 <= b' < b ==> ftl[b'].empty != pagesPerBlock
      {
        if ftl[b].empty == pagesPerBlock {
          return true, b;
        }
      }
      return false, 0;
    }

    /** get_min_deathtime_block: with no death time (-1) the requested block and page are the
        answer. Any other death time starts the search by death-time similarity, whose
        scoring loop raises on the first block (DeathTimeScoreError) before changing
        anything. */
    method GetMinDeathtimeBlock(block: nat, page: nat, deathTime: int) returns (r: Result<(nat, nat), string>)
      requires Valid() && block < totalBlocks && page < pagesPerBlock
      ensures r.Success? <==> deathTime == -1
      ensures r.Success? ==> r.value == (block, page)
      ensures r.Failure? ==> r.error == DeathTimeScoreError
    {
      if deathTime == -1 {
        return Success((block, page));
      }
      return Failure(DeathTimeScoreError);
    }

    /** raw_write_page. */
    method RawWritePage(block: nat, page: nat, deathTime: int) returns (res: bool, status: OpStatus)
      requires Valid() && block < totalBlocks && page < pagesPerBlock
      modifies this
      ensures Valid()
      ensures (State(), (res, status)) == RawWrite(Cfg(), old(State()), block, page, deathTime)
    {
      RawWriteWellFormed(Cfg(), State(), block, page, deathTime);
      var blk := ftl[block];
      var s := blk.pages[page];
      if s == PageEmpty {
        ftl := ftl[block := blk.(pages := blk.pages[page := PageInUse], empty := blk.empty - 1)];
        deathTimes := deathTimes[block := deathTimes[block][page := deathTime]];
        stats := stats.(elapsedTime := stats.elapsedTime + writePageTime,
                        pageWriteExecuted := stats.pageWriteExecuted + 1);
        return true, OperationSuccess;
      }
      if s == PageInUse {
        if blk.empty <= 0 {
          if fullBlockWritePolicy(block, page) {
            return true, OperationSuccess;
          } else {
            stats := stats.(pageWriteFailed := stats.pageWriteFailed + 1);
            return false, OperationFailedDiskFull;
          }
        } else {
          var newPage := GetEmptyPage(block);
          ftl := ftl[block := BlockState(blk.pages[page := PageDirty][newPage.value := PageInUse],
                                         blk.empty - 1, blk.dirty + 1)];
          stats := stats.(elapsedTime := stats.elapsedTime + writePageTime,
                          pageWriteExecuted := stats.pageWriteExecuted + 1);
          return true, OperationSuccess;
        }
      }
      return false, OperationFailedDirty;
    }

    /** raw_read_page. */
    method RawReadPage(block: nat, page: nat) returns (res: bool, status: OpStatus)
      requires Valid() && block < totalBlocks && page < pagesPerBlock
      modifies this
      ensures Valid()
      ensures (State(), (res, status)) == RawRead(Cfg(), old(State()), block, page)
    {
      var s := ftl[block].pages[page];
      if s == PageInUse {
        stats := stats.(elapsedTime := stats.elapsedTime + readPageTime);
        stats := stats.(pageReadExecuted := stats.pageReadExecuted + 1);
        return true, OperationSuccess;
      }
      return false, OperationFailedDirty;
    }

    /** raw_erase_block: every page of the block becomes empty, one page at a time. */
    method RawEraseBlock(block: nat) returns (ok: bool)
      requires Valid() && block < totalBlocks
      modifies this
      ensures Valid()
      ensures ok && State() == EraseBlock(Cfg(), old(State()), block)
    {
      var pages := ftl[block].pages;
      for p := 0 to pagesPerBlock
        invariant |pages| == pagesPerBlock
        invariant forall i :: 0 <= i < p ==> pages[i] == PageEmpty
      {
        pages := pages[p := PageEmpty];
      }
      assert pages == seq(pagesPerBlock, _ => PageEmpty);
      ftl := ftl[block := BlockState(pages, pagesPerBlock, 0)];
      stats := stats.(blockEraseExecuted := stats.blockEraseExecuted + 1,
                      elapsedTime := stats.elapsedTime + eraseBlockTime);
      EraseBlockEffect(Cfg(), old(State()), block);
      return true;
    }

    // -------------------------------------------------------------------------------------
    // Garbage collection
    // -------------------------------------------------------------------------------------

    /** execute_gc_block of the simple collector: read every page (a read succeeds exactly
        on the live ones), erase the block, write back each page that was read, at its old
        index and with the default death time -1. It always reports True. */
    method ExecuteGcBlock(block: nat) returns (ok: bool)
      requires Valid() && block < totalBlocks
      modifies this
      ensures Valid()
      ensures ok && State() == DiskModel.ExecuteGcBlock(Cfg(), old(State()), block)
    {
      ghost var s0 := State();
      // step 1: keep a copy of which pages hold data
      var temp := ReadBlock(block);
      // step 2: erase
      var _ := RawEraseBlock(block);
      RewriteStart(Cfg(), s0, block);
      // step 3: write the live pages back
      WriteBack(block, temp, s0);
      RewriteFinish(Cfg(), s0, block);
      return true;
    }

    /** Step 1 of execute_gc_block: read every page of the block; a page that reads back is
        remembered as in use, any other (empty or dirty) as empty. */
    method ReadBlock(block: nat) returns (temp: seq<PageStatus>)
      requires Valid() && block < totalBlocks
      modifies this
      ensures Valid()
      ensures State() == ReadsDone(Cfg(), old(State()), block, pagesPerBlock)
      ensures temp == AfterCompaction(old(State()).ftl[block].pages)
    {
      ghost var s0 := State();
      temp := [];
      for p := 0 to pagesPerBlock
        invariant Valid()
        invariant State() == ReadsDone(Cfg(), s0, block, p)
        invariant |temp| == p
        invariant forall i :: 0 <= i < p ==> temp[i] == AfterCompaction(s0.ftl[block].pages)[i]
      {
        ReadStep(Cfg(), s0, block, p);
        var res, _ := RawReadPage(block, p);
        temp := temp + [if res then PageInUse else PageEmpty];
      }
    }

    /** Step 3 of execute_gc_block: write each page remembered as in use back at its own
        index, with death time -1. */
    method WriteBack(block: nat, temp: seq<PageStatus>, ghost s0: DiskState)
      requires Valid() && block < totalBlocks && Shaped(Cfg(), s0)
      requires temp == AfterCompaction(s0.ftl[block].pages)
      requires State() == RewritesDone(Cfg(), s0, block, 0)
      modifies this
      ensures Valid()
      ensures State() == RewritesDone(Cfg(), s0, block, pagesPerBlock)
    {
      for p := 0 to pagesPerBlock
        invariant Valid()
        invariant State() == RewritesDone(Cfg(), s0, block, p)
      {
        if temp[p] == PageInUse {
          RewriteStep(Cfg(), s0, block, p);
          var _, _ := RawWritePage(block, p, -1);
        } else {
          RewriteSkip(Cfg(), s0, block, p);
        }
      }
    }

    /** The dirty pages of block b, counted one page at a time. */
    method DirtyCountOf(b: nat) returns (invalidCount: nat)
      requires Valid() && b < totalBlocks
      ensures invalidCount == Count(ftl[b].pages, PageDirty)
    {
      invalidCount := 0;
      for p := 0 to pagesPerBlock
        invariant invalidCount == Count(ftl[b].pages[..p], PageDirty)
      {
        CountPrefix(ftl[b].pages, p, PageDirty);
        if ftl[b].pages[p] == PageDirty {
          invalidCount := invalidCount + 1;
        }
      }
      assert ftl[b].pages[..pagesPerBlock] == ftl[b].pages;
    }

    /** The run-once scan of run_gc: the block with the most dirty pages, the first one on a
        tie, 0 when no block has a dirty page. (The source counts a block's dirty pages by
        iterating the keys of the block's dictionary, that is the page indices and the two
        counter names, and comparing each key with the DIRTY status value; the count
        modelled here is the number of DIRTY pages, which is what the variable names
        `max_invalid` and `invalid_count` say.) */
    method MostDirtyBlockScan() returns (block: nat)
      requires Valid()
      ensures block == MostDirtyBlock(DirtyCounts(ftl)).1
      ensures block < totalBlocks
      ensures forall b :: 0 <= b < totalBlocks ==> Count(ftl[b].pages, PageDirty) <= Count(ftl[block].pages, PageDirty)
      ensures forall b :: 0 <= b < block ==> Count(ftl[b].pages, PageDirty) < Count(ftl[block].pages, PageDirty)
    {
      var maxInvalid := 0;
      var maxInvalidBlock := 0;
      var table := ftl;
      for b := 0 to totalBlocks
        invariant (maxInvalid, maxInvalidBlock) == MostDirtyBlock(DirtyCounts(table)[..b])
      {
        var invalidCount := DirtyCountOf(b);
        assert DirtyCounts(table)[..b + 1][..b] == DirtyCounts(table)[..b];
        if invalidCount > maxInvalid {
          maxInvalid := invalidCount;
          maxInvalidBlock := b;
        }
      }
      assert DirtyCounts(table)[..totalBlocks] == DirtyCounts(table);
      assert forall b :: 0 <= b < totalBlocks ==> DirtyCounts(table)[b] == Count(table[b].pages, PageDirty);
      return maxInvalidBlock;
    }

    /** run_gc. With the run-once request it only scans the blocks for the one with the most
        dirty pages and returns its index, changing nothing. Otherwise, if the collector's
        time gate opens, it visits the blocks in ascending order and compacts each one that
        qualifies, reporting whether any did. */
    method RunGc(forceRun: bool, runOnce: bool) returns (outcome: GcOutcome)
      requires Valid()
      modifies this
      ensures Valid()
      ensures (State(), outcome) == DiskModel.RunGc(Cfg(), old(State()), forceRun, runOnce)
    {
      if runOnce {
        var block := MostDirtyBlockScan();
        return SelectedBlock(block);
      }
      if CollectorRuns(collector, stats.elapsedTime, lastRun, forceRun) {
        ghost var s0 := State();
        GcPassStart(Cfg(), s0, forceRun);
        var execution := false;
        for b := 0 to totalBlocks
          invariant Valid()
          invariant (State(), execution) == GcPass(Cfg(), s0, forceRun, b)
        {
          GcPassStep(Cfg(), s0, forceRun, b);
          if CollectorQualifies(collector, ftl[b].dirty, pagesPerBlock, forceRun) {
            var res := ExecuteGcBlock(b);
            if !execution && res {
              execution := true;
            }
          }
        }
        GcPassWellFormed(Cfg(), s0, forceRun);
        return Executed(execution);
      }
      return Executed(false);
    }

    // -------------------------------------------------------------------------------------
    // Host operations
    // -------------------------------------------------------------------------------------

    /** host_write_page: give the collector its turn (its answer is not used), write, and
        count a host write on success; a disk-full outcome of an unforced write takes its
        failure back, counts a forced collector run and is retried once with the collector
        forced. */
    method HostWritePage(block: nat, page: nat, deathTime: int, gcWasForced: bool, runGcOnce: bool)
      returns (res: bool, status: OpStatus)
      requires Valid() && block < totalBlocks && page < pagesPerBlock
      modifies this
      ensures Valid()
      ensures (State(), (res, status)) == HostWrite(Cfg(), old(State()), block, page, deathTime, gcWasForced, runGcOnce)
      decreases if gcWasForced then 0 else 1
    {
      ghost var s0 := State();
      var _ := RunGc(gcWasForced, runGcOnce);
      res, status := RawWritePage(block, page, deathTime);
      ghost var written := State();
      if res {
        stats := stats.(hostPageWriteRequest := stats.hostPageWriteRequest + 1);
      } else if !gcWasForced && status == OperationFailedDiskFull {
        stats := stats.(pageWriteFailed := stats.pageWriteFailed - 1,
                        gcForcedCount := stats.gcForcedCount + 1);
        assert State() == RetryState(written);
        res, status := HostWritePage(block, page, deathTime, true, false);
        assert HostWrite(Cfg(), s0, block, page, deathTime, gcWasForced, runGcOnce)
            == HostWrite(Cfg(), RetryState(written), block, page, deathTime, true, false);
      }
    }

    /** host_read_page: give the collector its turn, read, and count a host read on success. */
    method HostReadPage(block: nat, page: nat) returns (res: bool, status: OpStatus)
      requires Valid() && block < totalBlocks && page < pagesPerBlock
      modifies this
      ensures Valid()
      ensures (State(), (res, status)) == HostRead(Cfg(), old(State()), block, page)
    {
      var _ := RunGc(false, false);
      res, status := RawReadPage(block, page);
      if res {
        stats := stats.(hostPageReadRequest := stats.hostPageReadRequest + 1);
      }
    }

    /** host_deathtime_page_write: a write to an empty page is a fresh write; it asks
        get_min_deathtime_block for a placement, which fails for any death time but -1 and
        otherwise names the requested page, where the write goes. Any other write is an
        update and becomes a host write of block 0, page 0, death time -1 with a run-once
        collector request. A failure leaves the disk as it was. */
    method HostDeathtimePageWrite(block: nat, page: nat, deathTime: int) returns (r: Result<WriteOutcome, string>)
      requires Valid() && block < totalBlocks && page < pagesPerBlock
      modifies this
      ensures Valid()
      ensures HostDeathtimeWrite(Cfg(), old(State()), block, page, deathTime)
              == if r.Success? then Success((State(), r.value)) else Failure(r.error)
      ensures r.Failure? ==> State() == old(State())
    {
      if ftl[block].pages[page] == PageEmpty {
        var placement := GetMinDeathtimeBlock(block, page, deathTime);
        if placement.Failure? {
          return Failure(placement.error);
        }
        var res, status := RawWritePage(block, page, deathTime);
        if res {
          stats := stats.(hostPageWriteRequest := stats.hostPageWriteRequest + 1);
        }
        r := Success((res, status));
      } else {
        var res, status := HostWritePage(0, 0, -1, false, true);
        r := Success((res, status));
      }
    }

    // -------------------------------------------------------------------------------------
    // Statistics
    // -------------------------------------------------------------------------------------

    /** number_of_empty_pages: the sum of the blocks' empty counters, which is the number
        of empty pages on the disk. */
    method NumberOfEmptyPages() returns (tot: nat)
      requires Valid()
      ensures tot == TotalCount(ftl, PageEmpty)
    {
      tot := 0;
      for b := 0 to totalBlocks
        invariant tot == TotalCount(ftl[..b], PageEmpty)
      {
        assert ftl[..b + 1][..b] == ftl[..b];
        tot := tot + ftl[b].empty;
      }
      assert ftl[..totalBlocks] == ftl;
    }

    /** number_of_dirty_pages: the sum of the blocks' dirty counters, which is the number
        of dirty pages on the disk. */
    method NumberOfDirtyPages() returns (tot: nat)
      requires Valid()
      ensures tot == TotalCount(ftl, PageDirty)
    {
      tot := 0;
      for b := 0 to totalBlocks
        invariant tot == TotalCount(ftl[..b], PageDirty)
      {
        assert ftl[..b + 1][..b] == ftl[..b];
        tot := tot + ftl[b].dirty;
      }
      assert ftl[..totalBlocks] == ftl;
    }

    /** number_of_in_use_pages: total pages minus the empty and the dirty ones, which is the
        number of live pages on the disk. */
    method NumberOfInUsePages() returns (n: int)
      requires Valid()
      ensures n == TotalCount(ftl, PageInUse)
    {
      var empty := NumberOfEmptyPages();
      var dirty := NumberOfDirtyPages();
      TotalPartition(ftl, pagesPerBlock);
      TimesIsProduct(totalBlocks, pagesPerBlock);
      n := totalPages - (empty + dirty);
    }

    /** get_stats: the statistics row of the disk as it is now. */
    method GetStats() returns (row: StatsRow)
      requires Valid()
      ensures row == Snapshot(Cfg(), State())
      ensures row.dirty == TotalCount(ftl, PageDirty)
      ensures row.amplification == WriteAmplification(stats)
    {
      var dirty := NumberOfDirtyPages();
      row := StatsRow(stats.elapsedTime, Iops(stats), BandwidthHost(stats, pageSize), WriteAmplification(stats),
                      stats.hostPageWriteRequest, stats.hostPageReadRequest, stats.pageWriteExecuted,
                      stats.pageReadExecuted, stats.blockEraseExecuted, stats.pageWriteFailed, dirty);
    }
  }

  // ---------------------------------------------------------------------------------------
  // The intermediate states of execute_gc_block
  // ---------------------------------------------------------------------------------------

  /** The state after step 1 has read the pages 0 .. p-1 of `block`: one read charged per
      live page among them. */
  ghost function ReadsDone(c: Config, s: DiskState, block: nat, p: nat): DiskState
    requires Shaped(c, s) && block < c.totalBlocks && p <= c.pagesPerBlock
  {
    var live := Count(s.ftl[block].pages[..p], PageInUse);
    s.(stats := s.stats.(elapsedTime := s.stats.elapsedTime + Times(live, c.readPageTime),
                         pageReadExecuted := s.stats.pageReadExecuted + live))
  }

  /** The state after step 3 has written back the live pages among 0 .. p-1 of the erased
      block. */
  ghost function RewritesDone(c: Config, s: DiskState, block: nat, p: nat): DiskState
    requires Shaped(c, s) && block < c.totalBlocks && p <= c.pagesPerBlock
  {
    var pages := s.ftl[block].pages;
    var all := Count(pages, PageInUse);
    var live := Count(pages[..p], PageInUse);
    var st := s.stats;
    s.(ftl := s.ftl[block := BlockState(
                seq(c.pagesPerBlock, i requires 0 <= i < c.pagesPerBlock =>
                      if i < p && pages[i] == PageInUse then PageInUse else PageEmpty),
                c.pagesPerBlock - live, 0)],
       deathTimes := s.deathTimes[block := seq(c.pagesPerBlock, i requires 0 <= i < c.pagesPerBlock =>
                      if i < p && pages[i] == PageInUse then -1 else s.deathTimes[block][i])],
       stats := st.(elapsedTime := st.elapsedTime + Times(all, c.readPageTime) + c.eraseBlockTime
                                   + Times(live, c.writePageTime),
                    pageReadExecuted := st.pageReadExecuted + all,
                    blockEraseExecuted := st.blockEraseExecuted + 1,
                    pageWriteExecuted := st.pageWriteExecuted + live))
  }

  /** Reading page p succeeds exactly when it is live, and charges it. */
  lemma ReadStep(c: Config, s: DiskState, block: nat, p: nat)
    requires Shaped(c, s) && block < c.totalBlocks && p < c.pagesPerBlock
    requires WellFormed(c, ReadsDone(c, s, block, p))
    ensures RawRead(c, ReadsDone(c, s, block, p), block, p)
            == (ReadsDone(c, s, block, p + 1),
                if s.ftl[block].pages[p] == PageInUse then (true, OperationSuccess) else (false, OperationFailedDirty))
  {
    CountPrefix(s.ftl[block].pages, p, PageInUse);
  }

  /** Erasing after all reads is the start of step 3. */
  lemma RewriteStart(c: Config, s: DiskState, block: nat)
    requires Shaped(c, s) && block < c.totalBlocks
    requires WellFormed(c, ReadsDone(c, s, block, c.pagesPerBlock))
    ensures EraseBlock(c, ReadsDone(c, s, block, c.pagesPerBlock), block) == RewritesDone(c, s, block, 0)
  {
    var pages := s.ftl[block].pages;
    assert pages[..c.pagesPerBlock] == pages;
    assert pages[..0] == [];
    var t := RewritesDone(c, s, block, 0);
    var e := EraseBlock(c, ReadsDone(c, s, block, c.pagesPerBlock), block);
    assert t.ftl[block] == e.ftl[block];
    assert t.ftl == e.ftl;
    assert t.deathTimes[block] == s.deathTimes[block];
    assert t.deathTimes == e.deathTimes;
    assert t.stats == e.stats;
  }

  /** Writing back a live page p extends step 3 by one page. */
  lemma RewriteStep(c: Config, s: DiskState, block: nat, p: nat)
    requires Shaped(c, s) && block < c.totalBlocks && p < c.pagesPerBlock
    requires WellFormed(c, RewritesDone(c, s, block, p))
    requires s.ftl[block].pages[p] == PageInUse
    ensures RawWrite(c, RewritesDone(c, s, block, p), block, p, -1).0 == RewritesDone(c, s, block, p + 1)
  {
    CountPrefix(s.ftl[block].pages, p, PageInUse);
    var t := RewritesDone(c, s, block, p);
    var u := RewritesDone(c, s, block, p + 1);
    assert t.ftl[block].pages[p] == PageEmpty;
    var w := RawWrite(c, t, block, p, -1).0;
    assert w.ftl[block].pages == u.ftl[block].pages;
    assert w.deathTimes[block] == u.deathTimes[block];
  }

  /** A page that was not live is skipped. */
  lemma RewriteSkip(c: Config, s: DiskState, block: nat, p: nat)
    requires Shaped(c, s) && block < c.totalBlocks && p < c.pagesPerBlock
    requires s.ftl[block].pages[p] != PageInUse
    ensures RewritesDone(c, s, block, p) == RewritesDone(c, s, block, p + 1)
  {
    CountPrefix(s.ftl[block].pages, p, PageInUse);
    var t := RewritesDone(c, s, block, p);
    var u := RewritesDone(c, s, block, p + 1);
    assert t.ftl[block].pages == u.ftl[block].pages;
    assert t.deathTimes[block] == u.deathTimes[block];
  }

  /** After the last page, step 3 has produced the compacted block. */
  lemma RewriteFinish(c: Config, s: DiskState, block: nat)
    requires Shaped(c, s) && block < c.totalBlocks
    ensures RewritesDone(c, s, block, c.pagesPerBlock) == ExecuteGcBlock(c, s, block)
  {
    var pages := s.ftl[block].pages;
    assert pages[..c.pagesPerBlock] == pages;
    var t := RewritesDone(c, s, block, c.pagesPerBlock);
    var u := ExecuteGcBlock(c, s, block);
    assert t.ftl[block].pages == u.ftl[block].pages;
    assert t.deathTimes[block] == u.deathTimes[block];
  }
}
