/** The positional checksum of a disk (solve_pt1 in
    src/advent_of_code_2024/09/pt1.py). */
module Checksum {
  import opened Blocks
  import Compactor

  /** What solve_pt1 computes from position `from` on: the sum of
      position * file id, stopping at the first free block. */
  function EarlyStopSum(s: seq<Block>, from: nat): nat
    decreases |s| - from
  {
    if from >= |s| || s[from].Free? then 0
    else from * s[from].id + EarlyStopSum(s, from + 1)
  }

  /** The checksum the design intends: position * file id summed over every
      file block from position `from` on, skipping free blocks. */
  function FileSum(s: seq<Block>, from: nat): nat
    decreases |s| - from
  {
    if from >= |s| then 0
    else (if s[from].Free? then 0 else from * s[from].id) + FileSum(s, from + 1)
  }

  /** solve_pt1: accumulate position * file id and return at the first free
      block, or after the last block when there is none. */
  method SolvePt1(disk: seq<Block>) returns (total: nat)
    ensures total == EarlyStopSum(disk, 0)
  {
    total := 0;
    for idx := 0 to |disk|
      invariant forall k :: 0 <= k < idx ==> disk[k].File?
      invariant total + EarlyStopSum(disk, idx) == EarlyStopSum(disk, 0)
    {
      if disk[idx].Free? {
        return total;
      }
      total := total + idx * disk[idx].id;
    }
  }

  /** A stretch of free blocks adds nothing to the full checksum. */
  lemma {:induction false} FreeTailSumsToZero(s: seq<Block>, from: nat)
    requires forall k :: from <= k < |s| ==> s[k].Free?
    ensures FileSum(s, from) == 0
    decreases |s| - from
  {
    if from < |s| {
      FreeTailSumsToZero(s, from + 1);
    }
  }

  /** The early-stopping scan is the full checksum of the blocks before the
      first free block (of the whole disk when there is none). */
  lemma {:induction false} EarlyStopSumsBeforeFirstFree(s: seq<Block>, from: nat)
    requires from <= |s|
    requires forall k :: 0 <= k < from ==> s[k].File?
    ensures var n := match Compactor.NextFree(s, 0) case Some(k) => k case None => |s|;
      from <= n && EarlyStopSum(s, from) == FileSum(s[..n], from)
    decreases |s| - from
  {
    var n := match Compactor.NextFree(s, 0) case Some(k) => k case None => |s|;
    if from < n {
      assert s[from].File? && s[..n][from] == s[from];
      EarlyStopSumsBeforeFirstFree(s, from + 1);
    }
  }

  /** On a compacted disk (occupied prefix, free suffix) stopping at the first
      free block loses nothing: the early-stopping scan equals the full one. */
  lemma {:induction false} EarlyStopMatchesFileSum(s: seq<Block>, from: nat)
    requires Partitioned(s)
    ensures EarlyStopSum(s, from) == FileSum(s, from)
    decreases |s| - from
  {
    if from < |s| {
      if s[from].Free? {
        FreeTailSumsToZero(s, from + 1);
      } else {
        EarlyStopMatchesFileSum(s, from + 1);
      }
    }
  }

  /** The checksum of any disk after compaction, scanned early-stopping as
      solve_pt1 does, is its full checksum. */
  lemma ChecksumOfCompactedDisk(s: seq<Block>)
    ensures EarlyStopSum(Compactor.Compact(s), 0) == FileSum(Compactor.Compact(s), 0)
  {
    Compactor.CompactPartitions(s);
    EarlyStopMatchesFileSum(Compactor.Compact(s), 0);
  }
}
