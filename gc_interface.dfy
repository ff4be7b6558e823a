/** The garbage-collector capability set as the disk engine sees it (which collector is
    plugged in, whether it runs, which blocks it takes) and the selection made by the
    "run once" request. */
module GarbageCollectorInterface {
  import GarbageCollectorSimple

  /** The collector mixed into a disk: none, or the simple one with its two parameters. */
  datatype Collector =
    | GarbageCollectorNone
    | GarbageCollectorSimple(minTime: int, dirtiness: GarbageCollectorSimple.Dec)

  /** What run_gc returns: the chosen block of a run-once request, or whether a pass cleaned
      at least one block. */
  datatype GcOutcome = SelectedBlock(block: nat) | Executed(ran: bool)

  /** check_gc_run of the plugged-in collector; the none collector never runs. */
  predicate CollectorRuns(c: Collector, elapsedTime: int, lastRun: int, forceRun: bool)
  {
    match c
    case GarbageCollectorNone => false
    case GarbageCollectorSimple(minTime, _) =>
      GarbageCollectorSimple.CheckGcRun(elapsedTime, lastRun, minTime, forceRun)
  }

  /** check_gc_block of the plugged-in collector, from the block's dirty counter. */
  predicate CollectorQualifies(c: Collector, dirty: int, pagesPerBlock: nat, forceRun: bool)
    requires pagesPerBlock > 0
  {
    match c
    case GarbageCollectorNone => false
    case GarbageCollectorSimple(_, dirtiness) =>
      GarbageCollectorSimple.CheckGcBlock(dirty, pagesPerBlock, dirtiness, forceRun)
  }

  /** The run-once scan over per-block dirty counts: (max_invalid, max_invalid_block) after
      visiting every block in ascending order, starting from (0, 0) and moving only on a
      strictly greater count. */
  function MostDirtyBlock(counts: seq<nat>): (r: (nat, nat))
    ensures r.0 == 0 ==> r.1 == 0
    ensures r.0 > 0 ==> r.1 < |counts| && counts[r.1] == r.0
    ensures forall b :: 0 <= b < |counts| ==> counts[b] <= r.0
    ensures forall b :: 0 <= b < r.1 ==> counts[b] < r.0
  {
    if |counts| == 0 then (0, 0)
    else
      var prev := MostDirtyBlock(counts[..|counts| - 1]);
      if counts[|counts| - 1] > prev.0 then (counts[|counts| - 1], |counts| - 1) else prev
  }
}
