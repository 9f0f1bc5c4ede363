/** The in-place two-pointer compaction of the disk (find_next_free_block,
    find_prev_file_block, swap_blocks and compact_disk in
    src/advent_of_code_2024/09/pt1.py). */
module Compactor {
  import opened Blocks

  /** The smallest index at or after i holding a free block, if any. */
  function NextFree(s: seq<Block>, i: nat): (r: Option<nat>)
    requires i <= |s|
    ensures r.Some? ==> i <= r.value < |s| && s[r.value].Free? &&
                        forall k :: i <= k < r.value ==> s[k].File?
    ensures r.None? ==> forall k :: i <= k < |s| ==> s[k].File?
    decreases |s| - i
  {
    if i == |s| then None
    else if s[i].Free? then Some(i)
    else NextFree(s, i + 1)
  }

  /** The largest index at or before j holding a file block, if any. */
  function PrevFile(s: seq<Block>, j: int): (r: Option<nat>)
    requires j < |s|
    ensures r.Some? ==> r.value <= j && s[r.value].File? &&
                        forall k :: r.value < k <= j ==> s[k].Free?
    ensures r.None? ==> forall k :: 0 <= k <= j ==> s[k].Free?
    decreases j + 1
  {
    if j < 0 then None
    else if s[j].File? then Some(j)
    else PrevFile(s, j - 1)
  }

  /** find_next_free_block. Started past the end of the disk, the scan does
      not move and the source hands back the start index itself. */
  method FindNextFreeBlock(a: array<Block>, i: nat) returns (r: Option<nat>)
    ensures i <= a.Length ==> r == NextFree(a[..], i)
    ensures a.Length < i ==> r == Some(i)
  {
    var idx := i;
    while idx < a.Length && a[idx] != Free
      invariant i <= idx
      invariant i <= a.Length ==> idx <= a.Length && NextFree(a[..], idx) == NextFree(a[..], i)
      invariant a.Length < i ==> idx == i
      decreases a.Length - idx
    {
      idx := idx + 1;
    }
    if idx == a.Length {
      r := None;
    } else {
      r := Some(idx);
    }
  }

  /** find_prev_file_block; j = -1 (an empty disk's last index) gives None. */
  method FindPrevFileBlock(a: array<Block>, j: int) returns (r: Option<nat>)
    requires j < a.Length
    ensures r == PrevFile(a[..], j)
  {
    var idx := j;
    while idx >= 0 && a[idx] == Free
      invariant idx <= j
      invariant PrevFile(a[..], idx) == PrevFile(a[..], j)
      decreases idx + 1
    {
      idx := idx - 1;
    }
    if idx < 0 {
      r := None;
    } else {
      r := Some(idx);
    }
  }

  /** swap_blocks: entries i and j trade places, nothing else changes. */
  method SwapBlocks(a: array<Block>, i: nat, j: nat)
    requires i < a.Length && j < a.Length
    modifies a
    ensures a[..] == old(a[..])[i := old(a[j])][j := old(a[i])]
    ensures multiset(a[..]) == multiset(old(a[..]))
  {
    var temp := a[i];
    a[i] := a[j];
    a[j] := temp;
  }

  /** The disk the two-pointer algorithm leaves behind, as a reference
      definition on values: a leading file block stays, a trailing free block
      stays, and otherwise the last file block moves into the first slot,
      which is free, and that free block moves to the end. */
  function Compact(s: seq<Block>): (r: seq<Block>)
    ensures |r| == |s|
    decreases |s|
  {
    if |s| == 0 then []
    else if s[0].File? then [s[0]] + Compact(s[1..])
    else if s[|s| - 1].Free? then Compact(s[..|s| - 1]) + [s[|s| - 1]]
    else [s[|s| - 1]] + Compact(s[1..|s| - 1]) + [s[0]]
  }

  /** The multiset of a non-empty disk, split the three ways Compact takes
      the disk apart. */
  lemma MultisetSplits(s: seq<Block>)
    requires |s| > 0
    ensures multiset(s) == multiset{s[0]} + multiset(s[1..])
    ensures multiset(s) == multiset(s[..|s| - 1]) + multiset{s[|s| - 1]}
    ensures |s| >= 2 ==> multiset(s) == multiset{s[0]} + multiset(s[1..|s| - 1]) + multiset{s[|s| - 1]}
  {
    assert s == [s[0]] + s[1..];
    assert s == s[..|s| - 1] + [s[|s| - 1]];
    if |s| >= 2 {
      assert s[1..] == s[1..|s| - 1] + [s[|s| - 1]];
    }
  }

  /** Compaction only relocates blocks: no file block is created or lost,
      and the number of free blocks stays the same. */
  lemma {:induction false} CompactPermutes(s: seq<Block>)
    ensures multiset(Compact(s)) == multiset(s)
    decreases |s|
  {
    if |s| > 0 {
      MultisetSplits(s);
      if s[0].File? {
        assert Compact(s) == [s[0]] + Compact(s[1..]);
        CompactPermutes(s[1..]);
      } else if s[|s| - 1].Free? {
        assert Compact(s) == Compact(s[..|s| - 1]) + [s[|s| - 1]];
        CompactPermutes(s[..|s| - 1]);
      } else {
        assert Compact(s) == [s[|s| - 1]] + Compact(s[1..|s| - 1]) + [s[0]];
        CompactPermutes(s[1..|s| - 1]);
      }
    }
  }

  /** After compaction every file block precedes every free block. */
  lemma {:induction false} CompactPartitions(s: seq<Block>)
    ensures Partitioned(Compact(s))
    decreases |s|
  {
    var r := Compact(s);
    if |s| == 0 {
    } else if s[0].File? {
      CompactPartitions(s[1..]);
      forall k1, k2 | 0 <= k1 < k2 < |r| && r[k1].Free? ensures r[k2].Free? {
        assert r[k1] == Compact(s[1..])[k1 - 1] && r[k2] == Compact(s[1..])[k2 - 1];
      }
    } else if s[|s| - 1].Free? {
      CompactPartitions(s[..|s| - 1]);
      forall k1, k2 | 0 <= k1 < k2 < |r| && r[k1].Free? ensures r[k2].Free? {
        if k2 < |r| - 1 {
          assert r[k1] == Compact(s[..|s| - 1])[k1] && r[k2] == Compact(s[..|s| - 1])[k2];
        }
      }
    } else {
      var mid := Compact(s[1..|s| - 1]);
      CompactPartitions(s[1..|s| - 1]);
      forall k1, k2 | 0 <= k1 < k2 < |r| && r[k1].Free? ensures r[k2].Free? {
        if k2 < |r| - 1 {
          assert r[k1] == mid[k1 - 1] && r[k2] == mid[k2 - 1];
        }
      }
    }
  }

  /** A disk that already has the occupied-prefix / free-suffix shape is left
      as it is. */
  lemma {:induction false} PartitionedIsFixed(s: seq<Block>)
    requires Partitioned(s)
    ensures Compact(s) == s
    decreases |s|
  {
    if |s| == 0 {
    } else if s[0].File? {
      PartitionedIsFixed(s[1..]);
      assert s == [s[0]] + s[1..];
    } else {
      assert s[|s| - 1].Free?;
      PartitionedIsFixed(s[..|s| - 1]);
      assert s == s[..|s| - 1] + [s[|s| - 1]];
    }
  }

  /** Compacting a second time changes nothing. */
  lemma CompactIdempotent(s: seq<Block>)
    ensures Compact(Compact(s)) == Compact(s)
  {
    CompactPartitions(s);
    PartitionedIsFixed(Compact(s));
  }

  /** A run of file blocks at the front is kept in place. */
  lemma {:induction false} CompactKeepsFilePrefix(p: seq<Block>, m: seq<Block>)
    requires forall k :: 0 <= k < |p| ==> p[k].File?
    ensures Compact(p + m) == p + Compact(m)
    decreases |p|
  {
    if |p| > 0 {
      assert (p + m)[1..] == p[1..] + m;
      CompactKeepsFilePrefix(p[1..], m);
      assert p == [p[0]] + p[1..];
    } else {
      assert p + m == m;
    }
  }

  /** A run of free blocks at the back is kept in place. */
  lemma {:induction false} CompactKeepsFreeSuffix(m: seq<Block>, q: seq<Block>)
    requires forall k :: 0 <= k < |q| ==> q[k].Free?
    ensures Compact(m + q) == Compact(m) + q
    decreases |m| + |q|
  {
    var s := m + q;
    if |q| == 0 {
      assert s == m;
    } else if s[0].File? {
      assert |m| > 0;
      assert s[1..] == m[1..] + q;
      CompactKeepsFreeSuffix(m[1..], q);
      assert m == [m[0]] + m[1..];
    } else {
      var q' := q[..|q| - 1];
      assert s[..|s| - 1] == m + q';
      CompactKeepsFreeSuffix(m, q');
      assert q == q' + [q[|q| - 1]];
    }
  }

  /** Exchanging a free first block with a file last block does not change
      the compaction of a stretch of disk. */
  lemma SwapEndsPreservesCompact(free: Block, inner: seq<Block>, file: Block)
    requires free.Free? && file.File?
    ensures Compact([file] + inner + [free]) == Compact([free] + inner + [file])
  {
    var before := [free] + inner + [file];
    var after := [file] + inner + [free];
    assert before[1..|before| - 1] == inner;
    assert after[1..] == inner + [free];
    CompactKeepsFreeSuffix(inner, [free]);
  }

  /** Compaction works only on what lies between a file-block prefix and a
      free-block suffix. */
  lemma CompactBetween(p: seq<Block>, m: seq<Block>, q: seq<Block>)
    requires forall k :: 0 <= k < |p| ==> p[k].File?
    requires forall k :: 0 <= k < |q| ==> q[k].Free?
    ensures Compact(p + m + q) == p + Compact(m) + q
  {
    assert p + m + q == p + (m + q);
    CompactKeepsFilePrefix(p, m + q);
    CompactKeepsFreeSuffix(m, q);
  }

  /** One iteration of compact_disk's loop: with files before i, free space
      after j, a free block at i and a file block at j, swapping the two does
      not change the disk the algorithm ends with. */
  lemma SwapStepPreservesCompact(s: seq<Block>, i: nat, j: nat)
    requires i < j < |s| && s[i].Free? && s[j].File?
    requires forall k :: 0 <= k < i ==> s[k].File?
    requires forall k :: j < k < |s| ==> s[k].Free?
    ensures Compact(s[i := s[j]][j := s[i]]) == Compact(s)
  {
    var p, inner, q := s[..i], s[i + 1..j], s[j + 1..];
    assert s == p + ([s[i]] + inner + [s[j]]) + q;
    assert s[i := s[j]][j := s[i]] == p + ([s[j]] + inner + [s[i]]) + q;
    CompactBetween(p, [s[i]] + inner + [s[j]], q);
    CompactBetween(p, [s[j]] + inner + [s[i]], q);
    SwapEndsPreservesCompact(s[i], inner, s[j]);
  }

  /** Why the early return inside compact_disk's loop is never taken: right
      after the swap, slot j holds a free block and slot i a file block, so
      both scans find something. */
  lemma ScansSucceedAfterSwap(s: seq<Block>, i: nat, j: nat)
    requires i < j < |s| && s[i].Free? && s[j].File?
    ensures var t := s[i := s[j]][j := s[i]];
      NextFree(t, i).Some? && i < NextFree(t, i).value <= j &&
      PrevFile(t, j).Some? && i <= PrevFile(t, j).value < j
  {
    var t := s[i := s[j]][j := s[i]];
    assert t[i].File? && t[j].Free?;
  }

  /** The state compact_disk's loop keeps: i points at a free block with only
      file blocks before it, j at a file block with only free blocks after it. */
  predicate Bracketed(s: seq<Block>, i: nat, j: nat)
  {
    i < |s| && j < |s| && s[i].Free? && s[j].File? &&
    (forall k :: 0 <= k < i ==> s[k].File?) &&
    (forall k :: j < k < |s| ==> s[k].Free?)
  }

  /** The scans before the loop find a free and a file block exactly when the
      disk has both, and then they bracket the disk. */
  lemma InitialScans(s: seq<Block>)
    ensures NextFree(s, 0).Some? <==> HasFree(s)
    ensures PrevFile(s, |s| - 1).Some? <==> HasFile(s)
    ensures NextFree(s, 0).Some? && PrevFile(s, |s| - 1).Some? ==>
      Bracketed(s, NextFree(s, 0).value, PrevFile(s, |s| - 1).value)
  {
  }

  /** One pass of the loop body: swap, then both scans. The pointers stay
      bracketed, strictly closer together, and the compaction is unchanged. */
  lemma LoopStep(s: seq<Block>, i: nat, j: nat)
    requires Bracketed(s, i, j) && i < j
    ensures var t := s[i := s[j]][j := s[i]];
      NextFree(t, i).Some? && PrevFile(t, j).Some? &&
      Bracketed(t, NextFree(t, i).value, PrevFile(t, j).value) &&
      PrevFile(t, j).value - NextFree(t, i).value < j - i &&
      Compact(t) == Compact(s)
  {
    var t := s[i := s[j]][j := s[i]];
    SwapStepPreservesCompact(s, i, j);
    ScansSucceedAfterSwap(s, i, j);
    var i2, j2 := NextFree(t, i).value, PrevFile(t, j).value;
    assert forall k :: 0 <= k < i ==> t[k] == s[k];
    assert forall k :: j < k < |s| ==> t[k] == s[k];
  }

  /** When the pointers have crossed, the disk is compacted. */
  lemma CrossedIsPartitioned(s: seq<Block>, i: nat, j: nat)
    requires Bracketed(s, i, j) && j <= i
    ensures Partitioned(s)
  {
  }

  /** What compact_disk ends with. */
  datatype Outcome =
    | Returned         // the loop ran to its end
    | RaisedTypeError  // `i < j` at line 42 compared None with a number

  /** compact_disk. Both scans must find something before the loop, otherwise
      Python 3 raises at the first comparison and the disk is untouched.
      Afterwards the disk is the reference compaction of the old disk; the
      early return after the scans inside the loop cannot be reached. */
  method CompactDisk(a: array<Block>) returns (r: Outcome)
    modifies a
    ensures r == RaisedTypeError <==> !HasFree(old(a[..])) || !HasFile(old(a[..]))
    ensures r == RaisedTypeError ==> a[..] == old(a[..])
    ensures r == Returned ==> a[..] == Compact(old(a[..]))
    ensures r == Returned ==> Partitioned(a[..]) && multiset(a[..]) == multiset(old(a[..]))
  {
    InitialScans(a[..]);
    var first := FindNextFreeBlock(a, 0);
    var last := FindPrevFileBlock(a, a.Length - 1);
    if first.None? || last.None? {
      return RaisedTypeError;
    }
    var i: nat, j: nat := first.value, last.value;
    while i < j
      invariant Bracketed(a[..], i, j)
      invariant Compact(a[..]) == Compact(old(a[..]))
      decreases j - i
    {
      LoopStep(a[..], i, j);
      SwapBlocks(a, i, j);
      var nextI := FindNextFreeBlock(a, i);
      var nextJ := FindPrevFileBlock(a, j);
      if nextI.None? || nextJ.None? {
        // The early return at line 48-49 of the source: unreachable.
        assert false;
      }
      i, j := nextI.value, nextJ.value;
    }
    CrossedIsPartitioned(a[..], i, j);
    PartitionedIsFixed(a[..]);
    CompactPermutes(old(a[..]));
    return Returned;
  }

  /** On a disk that is already compacted and has both kinds of block, the
      first free index lies beyond the last file index, so compact_disk's
      loop body never runs. */
  lemma CompactedDiskSkipsLoop(s: seq<Block>)
    requires Partitioned(s) && HasFree(s) && HasFile(s)
    ensures NextFree(s, 0).Some? && PrevFile(s, |s| - 1).Some?
    ensures NextFree(s, 0).value > PrevFile(s, |s| - 1).value
  {
  }
}
