/** The rules of the simulation driver: the initialisation guard, the default sampling
    interval, the per-disk retry loop of one simulation step, the decision to store a
    statistics row, and the first row of every disk. */
module Simulation {
  import opened NandCommon
  import opened DiskModel
  import opened NandDisk

  // simulation type (the only one there is)
  const UniformRandomPageWrite: string := "SIM_RNDUNIF_PAGE_WRITE"

  // sampling types
  const SamplingHostWrite: string := "SIM_SAMPLING_HOSTWRITE"
  const SamplingElapsedTime: string := "SIM_SAMPLING_TIME"

  /** Write attempts a disk gets in one step before the step gives up on it. */
  const DriftAttempts: nat := 3

  const NotInitialized: string := "Simulation not yet initialized"
  const AlreadyInitialized: string := "Simulation already initialized"
  const InvalidBasePath: string := "The provided base path is not valid"
  const ZeroSampling: string := "integer division or modulo by zero"
  const NoLastTime: string := "unsupported operand: no time of the last sample"

  /** The statistics kept for one disk: the number of rows, the disk time of the last row
      (time sampling only; unset until the run sets it to 0) and the rows themselves. */
  datatype DiskStats = DiskStats(samples: int, extra: Option<int>, rows: seq<StatsRow>)

  /** A disk's statistics when it is added: one row of zeros. */
  const FirstStats: DiskStats := DiskStats(1, None, [ZeroRow])

  /** Python's int() of a product with 0.1, taken exactly: a tenth, truncated toward zero. */
  function TruncatedTenth(n: int): (r: int)
    ensures n >= 0 ==> 0 <= r && 10 * r <= n < 10 * r + 10
    ensures n < 0 ==> r <= 0 && 10 * r >= n > 10 * r - 10
  {
    if n >= 0 then n / 10 else -((-n) / 10)
  }

  /** The sampling interval when none is given: a tenth of the sample size, truncated, and
      exactly 1 for a positive sample size below 10. */
  function DefaultSampling(sampleSize: int): (r: int)
    ensures sampleSize > 0 ==> r >= 1
    ensures 0 < sampleSize < 10 ==> r == 1
    ensures sampleSize >= 10 ==> r == TruncatedTenth(sampleSize)
    ensures sampleSize <= 0 ==> r == TruncatedTenth(sampleSize)
  {
    var tenth := TruncatedTenth(sampleSize);
    if sampleSize > 0 && tenth <= 0 then 1 else tenth
  }

  /** Host-write sampling: a row is due at the end of the sample, or at every positive
      multiple of the sampling interval. A zero interval is a division by zero once the
      test reaches the modulo. */
  function HostWriteSampleDue(index: int, sampleSize: int, sampling: int): (r: Result<bool, string>)
    ensures r.Failure? <==> index < sampleSize && index > 0 && sampling == 0
    ensures r.Failure? ==> r.error == ZeroSampling
    ensures r.Success? ==>
              (r.value <==> index >= sampleSize || (index > 0 && index % sampling == 0))
  {
    if index >= sampleSize then Success(true)
    else if index <= 0 then Success(false)
    else if sampling == 0 then Failure(ZeroSampling)
    else Success(index % sampling == 0)
  }

  /** With the default interval and a positive sample size, the host-write test never
      divides by zero. */
  lemma DefaultSamplingNeverFails(index: int, sampleSize: int)
    requires sampleSize > 0
    ensures HostWriteSampleDue(index, sampleSize, DefaultSampling(sampleSize)).Success?
  {
  }

  /** Elapsed-time sampling for one disk: a row is due once the disk's time has moved on by
      the sampling interval since the last row, or, at the end of the sample, once it has
      moved on at all. */
  function TimeSampleDue(simTime: int, lastTime: int, index: int, sampleSize: int, sampling: int): bool
  {
    (index >= sampleSize && simTime - lastTime > 0) || simTime - lastTime >= sampling
  }

  /** Right after a row is stored (the last time is the disk's time), no second row is due
      at the same time, unless the interval is not positive. */
  lemma TimeSampleNotDueTwice(simTime: int, index: int, sampleSize: int, sampling: int)
    ensures TimeSampleDue(simTime, simTime, index, sampleSize, sampling) <==> sampling <= 0
  {
  }

  /** A row is due whenever the disk's time moved on by at least the interval, and never
      while the disk's time stands still with a positive interval. */
  lemma TimeSampleDueMonotone(simTime: int, lastTime: int, index: int, sampleSize: int, sampling: int)
    ensures simTime - lastTime >= sampling ==> TimeSampleDue(simTime, lastTime, index, sampleSize, sampling)
    ensures simTime <= lastTime && sampling > 0 ==> !TimeSampleDue(simTime, lastTime, index, sampleSize, sampling)
  {
  }

  /** One host write of a step, on the disk's state and the sampled block and page: with
      death times a death-time write (death time -1), otherwise a plain host write with no
      forced or run-once collector request. The disk keeps its invariant. */
  function AttemptOn(c: Config, useDeathtime: bool, s: DiskState, block: nat, page: nat): (r: (DiskState, WriteOutcome))
    requires WellFormed(c, s) && block < c.totalBlocks && page < c.pagesPerBlock
    ensures WellFormed(c, r.0)
  {
    if useDeathtime then
      HostDeathtimeWriteEffect(c, s, block, page, -1);
      HostDeathtimeWrite(c, s, block, page, -1).value
    else
      HostWriteEffect(c, s, block, page, -1, false, false);
      HostWrite(c, s, block, page, -1, false, false)
  }

  /** The samples from index `drift` on cover `attempts` attempts and lie on the disk. */
  predicate SamplesInRange(c: Config, blocks: seq<nat>, pages: seq<nat>, drift: nat, attempts: nat)
  {
    && drift + attempts <= |blocks| && drift + attempts <= |pages|
    && forall i :: drift <= i < drift + attempts ==> blocks[i] < c.totalBlocks && pages[i] < c.pagesPerBlock
  }

  /** The step's write as a total function on states, the form the retry loop takes. */
  function Attempt(c: Config, useDeathtime: bool): (DiskState, nat, nat) -> (DiskState, WriteOutcome)
  {
    (s: DiskState, block: nat, page: nat) =>
      if WellFormed(c, s) && block < c.totalBlocks && page < c.pagesPerBlock
      then AttemptOn(c, useDeathtime, s, block, page)
      else (s, (false, OperationFailedDirty))
  }

  /** `attempt` is the step's write on every state that keeps the disk's invariant. */
  ghost predicate Implements(attempt: (DiskState, nat, nat) -> (DiskState, WriteOutcome), c: Config, useDeathtime: bool)
  {
    forall s: DiskState, block: nat, page: nat {:trigger AttemptOn(c, useDeathtime, s, block, page)} ::
      WellFormed(c, s) && block < c.totalBlocks && page < c.pagesPerBlock ==>
        attempt(s, block, page) == AttemptOn(c, useDeathtime, s, block, page)
  }

  lemma AttemptImplements(c: Config, useDeathtime: bool)
    ensures Implements(Attempt(c, useDeathtime), c, useDeathtime)
  {
  }

  /** The retry loop for one disk: attempt the write at the current drift index, move the
      drift index on, and try again only while the write was discarded on a dirty page and
      attempts remain. The result is the disk's state, the new drift index and the outcome
      of the last attempt: between one and `attempts` samples are used, and the loop stops
      before the last attempt only on an outcome that is not a discarded dirty write. */
  function DriftLoop(attempt: (DiskState, nat, nat) -> (DiskState, WriteOutcome), s: DiskState,
                     blocks: seq<nat>, pages: seq<nat>, drift: nat, attempts: nat): (r: (DiskState, nat, WriteOutcome))
    requires 1 <= attempts && drift + attempts <= |blocks| && drift + attempts <= |pages|
    ensures drift + 1 <= r.1 <= drift + attempts
    ensures r.1 < drift + attempts ==> r.2.0 || r.2.1 != OperationFailedDirty
    ensures var (t, out) := attempt(s, blocks[drift], pages[drift]);
              out.0 || out.1 != OperationFailedDirty ==> r == (t, drift + 1, out)
    ensures r.1 > drift + 1 ==>
              var out := attempt(s, blocks[drift], pages[drift]).1;
              !out.0 && out.1 == OperationFailedDirty
    decreases attempts
  {
    var (t, out) := attempt(s, blocks[drift], pages[drift]);
    if out.0 || out.1 != OperationFailedDirty || attempts == 1 then (t, drift + 1, out)
    else DriftLoop(attempt, t, blocks, pages, drift + 1, attempts - 1)
  }

  /** One turn of the retry loop: after an attempt with outcome `out` and new state `t`,
      the loop either ends there or goes on from `t` at the next drift index. */
  lemma DriftLoopUnfold(attempt: (DiskState, nat, nat) -> (DiskState, WriteOutcome), s: DiskState,
                        blocks: seq<nat>, pages: seq<nat>, drift: nat, attempts: nat, t: DiskState, out: WriteOutcome)
    requires 1 <= attempts && drift + attempts <= |blocks| && drift + attempts <= |pages|
    requires attempt(s, blocks[drift], pages[drift]) == (t, out)
    ensures out.0 || out.1 != OperationFailedDirty || attempts == 1 ==>
              DriftLoop(attempt, s, blocks, pages, drift, attempts) == (t, drift + 1, out)
    ensures !(out.0 || out.1 != OperationFailedDirty || attempts == 1) ==>
              DriftLoop(attempt, s, blocks, pages, drift, attempts) == DriftLoop(attempt, t, blocks, pages, drift + 1, attempts - 1)
  {
  }

  /** A disk's statistics after one more row. */
  function AddRow(st: DiskStats, row: StatsRow): DiskStats
  {
    st.(samples := st.samples + 1, rows := st.rows + [row])
  }

  /** A disk's statistics after the elapsed-time test at disk time `now`: a row and the new
      time of the last row when a row is due, nothing otherwise. */
  function TimeSampled(st: DiskStats, now: int, row: StatsRow, index: int, sampleSize: int, sampling: int): DiskStats
    requires st.extra.Some?
  {
    if TimeSampleDue(now, st.extra.value, index, sampleSize, sampling)
    then AddRow(st, row).(extra := Some(now))
    else st
  }

  /** One write of the retry loop, on the disk itself. */
  method AttemptWrite(disk: NandDisk, block: nat, page: nat, useDeathtime: bool) returns (res: bool, status: OpStatus)
    requires disk.Valid() && block < disk.totalBlocks && page < disk.pagesPerBlock
    modifies disk
    ensures disk.Valid()
    ensures (disk.State(), (res, status)) == AttemptOn(disk.Cfg(), useDeathtime, old(disk.State()), block, page)
  {
    if useDeathtime {
      var r := disk.HostDeathtimePageWrite(block, page, -1);
      res, status := r.value.0, r.value.1;
    } else {
      res, status := disk.HostWritePage(block, page, -1, false, false);
    }
  }

  /** One turn of the retry loop on the disk itself: the write at drift index `drift`,
      and whether the loop ends with it or goes on from the disk's new state. */
  method DriftTurn(disk: NandDisk, ghost attempt: (DiskState, nat, nat) -> (DiskState, WriteOutcome),
                   blocks: seq<nat>, pages: seq<nat>, drift: nat, attempts: nat, useDeathtime: bool)
    returns (res: bool, status: OpStatus)
    requires disk.Valid() && Implements(attempt, disk.Cfg(), useDeathtime)
    requires 1 <= attempts && SamplesInRange(disk.Cfg(), blocks, pages, drift, attempts)
    modifies disk
    ensures disk.Valid()
    ensures res || status != OperationFailedDirty || attempts == 1 ==>
              DriftLoop(attempt, old(disk.State()), blocks, pages, drift, attempts) == (disk.State(), drift + 1, (res, status))
    ensures !(res || status != OperationFailedDirty || attempts == 1) ==>
              DriftLoop(attempt, old(disk.State()), blocks, pages, drift, attempts)
              == DriftLoop(attempt, disk.State(), blocks, pages, drift + 1, attempts - 1)
  {
    ghost var before := disk.State();
    res, status := AttemptWrite(disk, blocks[drift], pages[drift], useDeathtime);
    DriftLoopUnfold(attempt, before, blocks, pages, drift, attempts, disk.State(), (res, status));
  }

  /** The retry loop of execute_one_simulation_step for one disk, from drift index `drift`
      of the disk's samples; `drift'` is where the next step starts. The loop is stated for
      any function that agrees with the step's write on the disk's states. */
  method StepDisk(disk: NandDisk, ghost attempt: (DiskState, nat, nat) -> (DiskState, WriteOutcome),
                  blocks: seq<nat>, pages: seq<nat>, drift: nat, useDeathtime: bool)
    returns (drift': nat, res: bool, status: OpStatus)
    requires disk.Valid() && Implements(attempt, disk.Cfg(), useDeathtime)
    requires SamplesInRange(disk.Cfg(), blocks, pages, drift, DriftAttempts)
    modifies disk
    ensures disk.Valid()
    ensures (disk.State(), drift', (res, status)) == DriftLoop(attempt, old(disk.State()), blocks, pages, drift, DriftAttempts)
  {
    drift' := drift;
    var attempts := DriftAttempts;
    while true
      invariant disk.Valid()
      invariant 1 <= attempts && SamplesInRange(disk.Cfg(), blocks, pages, drift', attempts)
      invariant DriftLoop(attempt, disk.State(), blocks, pages, drift', attempts)
                == DriftLoop(attempt, old(disk.State()), blocks, pages, drift, DriftAttempts)
      decreases attempts
    {
      res, status := DriftTurn(disk, attempt, blocks, pages, drift', attempts, useDeathtime);
      drift' := drift' + 1;
      attempts := attempts - 1;
      if res || status != OperationFailedDirty || attempts == 0 {
        return;
      }
    }
  }

  /** The position of a name among the disk names, if it is there. */
  function IndexOfName(names: seq<string>, name: string): (r: Option<nat>)
    ensures r.None? <==> name !in names
    ensures r.Some? ==> r.value < |names| && names[r.value] == name && name !in names[..r.value]
  {
    if |names| == 0 then None
    else if names[0] == name then Some(0)
    else
      var r := IndexOfName(names[1..], name);
      if r.None? then None
      else
        assert names[1..][..r.value] == names[1..r.value + 1];
        Some(r.value + 1)
  }

  /** The simulation driver. The dictionaries keyed by disk name are kept as sequences in
      the order the names were first added, which is the order the driver visits them:
      entry `i` of `disks`, `stats`, `samples` and `samplesDrift` belongs to `diskNames[i]`. */
  class Simulation {
    const simName: string
    const sampleSize: int
    /** The sampling interval (host writes or microseconds, after the sampling type). */
    const sampling: int
    const samplingType: string
    const simType: string

    var initOk: bool
    var diskNames: seq<string>
    var disks: seq<NandDisk>
    var stats: seq<DiskStats>
    /** Per disk, the random block indices and page indices the run draws. */
    var samples: seq<(seq<nat>, seq<nat>)>
    /** Per disk, how many samples have been used. */
    var samplesDrift: seq<nat>

    /** The bookkeeping invariant: a name is listed once, every disk has its statistics,
        and `samples` counts the rows. */
    ghost predicate Valid()
      reads this
    {
      && |disks| == |diskNames| && |stats| == |diskNames|
      && (forall i, j :: 0 <= i < j < |diskNames| ==> diskNames[i] != diskNames[j])
      && (forall i :: 0 <= i < |stats| ==> stats[i].samples == |stats[i].rows| && |stats[i].rows| >= 1)
    }

    /** Every disk keeps its own invariant. */
    ghost predicate DisksValid()
      reads this, disks
    {
      forall i :: 0 <= i < |disks| ==> disks[i].Valid()
    }

    /** Every disk has samples left for a whole step, on the disk. */
    predicate SamplesReady()
      reads this
    {
      && |samples| == |disks| && |samplesDrift| == |disks|
      && forall i :: 0 <= i < |disks| ==>
           SamplesInRange(disks[i].Cfg(), samples[i].0, samples[i].1, samplesDrift[i], DriftAttempts)
    }

    constructor (simulationName: string, sampleSize: int, sampling: Option<int>, samplingType: string)
      ensures Valid() && !initOk
      ensures this.simName == simulationName && this.sampleSize == sampleSize
      ensures this.samplingType == samplingType && this.simType == UniformRandomPageWrite
      ensures this.sampling == if sampling.Some? then sampling.value else DefaultSampling(sampleSize)
      ensures diskNames == [] && disks == [] && stats == [] && samples == [] && samplesDrift == []
    {
      simName := simulationName;
      this.sampleSize := sampleSize;
      this.samplingType := samplingType;
      simType := UniformRandomPageWrite;
      initOk := false;
      diskNames := [];
      disks := [];
      stats := [];
      samples := [];
      samplesDrift := [];
      if sampling.None? {
        var tenth := TruncatedTenth(sampleSize);
        if sampleSize > 0 && tenth <= 0 {
          tenth := 1;
        }
        this.sampling := tenth;
      } else {
        this.sampling := sampling.value;
      }
    }

    /** init_simulation: refused when already done, and when the base path does not exist;
        otherwise the simulation becomes initialised. (Creating the result folder is left
        out; whether the base path exists is a parameter.) */
    method InitSimulation(basePathExists: bool) returns (r: Result<(), string>)
      requires Valid()
      modifies this`initOk
      ensures Valid()
      ensures old(initOk) ==> r == Failure(AlreadyInitialized) && initOk
      ensures !old(initOk) && !basePathExists ==> r == Failure(InvalidBasePath) && !initOk
      ensures !old(initOk) && basePathExists ==> r == Success(()) && initOk
    {
      if initOk {
        return Failure(AlreadyInitialized);
      }
      if !basePathExists {
        return Failure(InvalidBasePath);
      }
      initOk := true;
      return Success(());
    }

    /** add_disk: only once initialised; the disk is stored under its name, replacing the
        disk of that name in its place if there is one and going last otherwise, and its
        statistics start again from one row of zeros. */
    method AddDisk(name: string, disk: NandDisk) returns (r: Result<(), string>)
      requires Valid() && DisksValid() && disk.Valid()
      modifies this`diskNames, this`disks, this`stats
      ensures Valid() && DisksValid()
      ensures !initOk ==> r == Failure(NotInitialized) && unchanged(this)
      ensures initOk && name in old(diskNames) ==>
                var k := IndexOfName(old(diskNames), name).value;
                && r == Success(())
                && diskNames == old(diskNames)
                && disks == old(disks)[k := disk]
                && stats == old(stats)[k := FirstStats]
      ensures initOk && name !in old(diskNames) ==>
                && r == Success(())
                && diskNames == old(diskNames) + [name]
                && disks == old(disks) + [disk]
                && stats == old(stats) + [FirstStats]
    {
      if !initOk {
        return Failure(NotInitialized);
      }
      var k := IndexOfName(diskNames, name);
      if k.Some? {
        disks := disks[k.value := disk];
        stats := stats[k.value := FirstStats];
      } else {
        diskNames := diskNames + [name];
        disks := disks + [disk];
        stats := stats + [FirstStats];
      }
      return Success(());
    }

    /** execute_one_simulation_step: every disk, in the order they were added, gets its
        retry loop; each one uses between one and three samples. */
    method ExecuteOneSimulationStep(index: int, useDeathtime: bool)
      requires Valid() && DisksValid() && SamplesReady()
      modifies this`samplesDrift, disks
      ensures Valid() && DisksValid()
      ensures |samplesDrift| == |old(samplesDrift)|
      ensures forall i :: 0 <= i < |samplesDrift| ==>
                old(samplesDrift[i]) + 1 <= samplesDrift[i] <= old(samplesDrift[i]) + DriftAttempts
    {
      for i := 0 to |disks|
        invariant Valid() && DisksValid()
        invariant |samplesDrift| == |old(samplesDrift)|
        invariant forall j :: i <= j < |disks| ==>
                    && samplesDrift[j] == old(samplesDrift[j])
                    && SamplesInRange(disks[j].Cfg(), samples[j].0, samples[j].1, samplesDrift[j], DriftAttempts)
        invariant forall j :: 0 <= j < i ==>
                    old(samplesDrift[j]) + 1 <= samplesDrift[j] <= old(samplesDrift[j]) + DriftAttempts
      {
        StepOne(i, useDeathtime);
      }
    }

    /** The retry loop of one step for disk `i`: the disk's new state and its drift index are
        those of DriftLoop from where they were, so the index moves on by one to three
        samples; no other disk's drift index changes. */
    method StepOne(i: nat, useDeathtime: bool)
      requires Valid() && DisksValid() && |samples| == |disks| && |samplesDrift| == |disks| && i < |disks|
      requires SamplesInRange(disks[i].Cfg(), samples[i].0, samples[i].1, samplesDrift[i], DriftAttempts)
      modifies this`samplesDrift, disks[i]
      ensures Valid() && DisksValid()
      ensures |samplesDrift| == |old(samplesDrift)|
      ensures forall j :: 0 <= j < |samplesDrift| && j != i ==> samplesDrift[j] == old(samplesDrift[j])
      ensures old(samplesDrift[i]) + 1 <= samplesDrift[i] <= old(samplesDrift[i]) + DriftAttempts
      ensures var r := DriftLoop(Attempt(disks[i].Cfg(), useDeathtime), old(disks[i].State()),
                                 samples[i].0, samples[i].1, old(samplesDrift[i]), DriftAttempts);
              disks[i].State() == r.0 && samplesDrift[i] == r.1
    {
      AttemptImplements(disks[i].Cfg(), useDeathtime);
      var drift, _, _ := StepDisk(disks[i], Attempt(disks[i].Cfg(), useDeathtime),
                                  samples[i].0, samples[i].1, samplesDrift[i], useDeathtime);
      samplesDrift := samplesDrift[i := drift];
    }

    /** store_stat_disk: one more row for disk `i`, taken from the disk as it is now. */
    method StoreStatDisk(i: nat)
      requires Valid() && i < |disks| && disks[i].Valid()
      modifies this`stats
      ensures Valid()
      ensures stats == old(stats)[i := AddRow(old(stats[i]), Snapshot(disks[i].Cfg(), disks[i].State()))]
    {
      var row := disks[i].GetStats();
      stats := stats[i := AddRow(stats[i], row)];
    }

    /** Host-write sampling when a row is due: every disk gets one. */
    method StoreAllStats()
      requires Valid() && DisksValid()
      modifies this`stats
      ensures Valid()
      ensures |stats| == |old(stats)|
      ensures forall i :: 0 <= i < |stats| ==> stats[i] == AddRow(old(stats[i]), Snapshot(disks[i].Cfg(), disks[i].State()))
    {
      for i := 0 to |disks|
        invariant Valid()
        invariant forall j :: 0 <= j < i ==> stats[j] == AddRow(old(stats[j]), Snapshot(disks[j].Cfg(), disks[j].State()))
        invariant forall j :: i <= j < |stats| ==> stats[j] == old(stats[j])
      {
        StoreStatDisk(i);
      }
    }

    /** The elapsed-time pass went through the first `k` disks and no further: each of them
        had a time of its last row and got the elapsed-time test at its own time, and the
        statistics of every other disk are as they were in `before`. */
    ghost predicate TimeRowsTaken(before: seq<DiskStats>, k: nat, currentIndex: int)
      reads this, disks
    {
      && k <= |before| == |stats| <= |disks|
      && (forall j :: 0 <= j < k ==>
            && before[j].extra.Some?
            && stats[j] == TimeSampled(before[j], disks[j].stats.elapsedTime,
                                       Snapshot(disks[j].Cfg(), disks[j].State()),
                                       currentIndex, sampleSize, sampling))
      && (forall j :: k <= j < |stats| ==> stats[j] == before[j])
    }

    /** Elapsed-time sampling: each disk whose time has moved on enough gets a row and
        remembers its time. A disk with no time of its last row stops the pass there. */
    method StoreDueStats(currentIndex: int) returns (r: Result<bool, string>)
      requires Valid() && DisksValid()
      modifies this`stats
      ensures Valid()
      ensures |stats| == |old(stats)|
      ensures r.Success? ==> r.value && TimeRowsTaken(old(stats), |stats|, currentIndex)
      ensures r.Failure? ==>
                && r.error == NoLastTime
                && exists k :: 0 <= k < |stats| && old(stats[k]).extra.None? && TimeRowsTaken(old(stats), k, currentIndex)
    {
      for i := 0 to |disks|
        invariant Valid()
        invariant forall j :: 0 <= j < i ==>
                    && old(stats[j]).extra.Some?
                    && stats[j] == TimeSampled(old(stats[j]), disks[j].stats.elapsedTime,
                                               Snapshot(disks[j].Cfg(), disks[j].State()),
                                               currentIndex, sampleSize, sampling)
        invariant forall j :: i <= j < |stats| ==> stats[j] == old(stats[j])
      {
        if stats[i].extra.None? {
          assert TimeRowsTaken(old(stats), i, currentIndex);
          return Failure(NoLastTime);
        }
        StoreIfDue(i, currentIndex);
      }
      return Success(true);
    }

    /** The elapsed-time test for disk `i`, whose time of the last row is set: a row and the
        disk's time as the new time of the last row when a row is due, nothing otherwise. */
    method StoreIfDue(i: nat, currentIndex: int)
      requires Valid() && i < |disks| && disks[i].Valid() && stats[i].extra.Some?
      modifies this`stats
      ensures Valid()
      ensures stats == old(stats)[i := TimeSampled(old(stats[i]), disks[i].stats.elapsedTime,
                                                   Snapshot(disks[i].Cfg(), disks[i].State()),
                                                   currentIndex, sampleSize, sampling)]
    {
      var simTime := disks[i].stats.elapsedTime;
      if TimeSampleDue(simTime, stats[i].extra.value, currentIndex, sampleSize, sampling) {
        StoreStatDisk(i);
        stats := stats[i := stats[i].(extra := Some(simTime))];
      }
    }

    /** extract_and_store_stats: only once initialised. With host-write sampling, when a row
        is due every disk gets one and the answer is True; with time sampling each disk
        whose time has moved on enough gets one, and the answer is True; with any other
        sampling type the answer is False. */
    method ExtractAndStoreStats(currentIndex: int) returns (r: Result<bool, string>)
      requires Valid() && DisksValid()
      modifies this`stats
      ensures Valid() && |stats| == |old(stats)|
      ensures !initOk ==> r == Failure(NotInitialized) && stats == old(stats)
      ensures initOk && samplingType == SamplingHostWrite ==>
                var due := HostWriteSampleDue(currentIndex, sampleSize, sampling);
                && (due.Failure? ==> r == Failure(due.error) && stats == old(stats))
                && (due.Success? ==> r == Success(due.value))
                && (due.Success? && due.value ==>
                      forall i :: 0 <= i < |stats| ==>
                        stats[i] == AddRow(old(stats[i]), Snapshot(disks[i].Cfg(), disks[i].State())))
                && (due.Success? && !due.value ==> stats == old(stats))
      ensures initOk && samplingType == SamplingElapsedTime ==>
                && (r.Success? ==> r.value && TimeRowsTaken(old(stats), |stats|, currentIndex))
                && (r.Failure? ==>
                      && r.error == NoLastTime
                      && exists k :: 0 <= k < |stats| && old(stats[k]).extra.None? && TimeRowsTaken(old(stats), k, currentIndex))
      ensures initOk && samplingType != SamplingHostWrite && samplingType != SamplingElapsedTime ==>
                r == Success(false) && stats == old(stats)
    {
      if !initOk {
        return Failure(NotInitialized);
      }
      if samplingType == SamplingHostWrite {
        var due := HostWriteSampleDue(currentIndex, sampleSize, sampling);
        if due.Failure? {
          return Failure(due.error);
        }
        if due.value {
          StoreAllStats();
          return Success(true);
        }
        return Success(false);
      } else if samplingType == SamplingElapsedTime {
        r := StoreDueStats(currentIndex);
        return;
      }
      return Success(false);
    }
  }
}
