# Disk compaction (Advent of Code 2024, day 9, part 1) in Dafny

A model of `src/advent_of_code_2024/09/pt1.py`. The program reads a disk map:
a string of digits that alternately give the length of a file and the length
of the free space after it. It expands the map into one block per storage unit
(`parse_input`). It then compacts the disk in place with two pointers
(`compact_disk`): one runs forward to the next free block, one runs backward
to the last file block, and the two blocks are swapped until the pointers
cross. Finally it computes the checksum (`solve_pt1`): the sum of
`position * file id`, stopping at the first free block.

Modules:

- `Blocks` (blocks.dfy): `Block = Free | File(id)`, which replaces the
  source's `None`/int encoding. It also defines the shape predicates
  `Partitioned` (occupied prefix, free suffix), `HasFree` and `HasFile`.
- `Parser` (parser.dfy): the digit conversion `Digits`; the reference
  expansion `Disk`, in which the run for the digit at position `m` holds
  `File(m / 2)` when `m` is even and `Free` when it is odd; and `ParseInput`,
  the source's nested append loops, proved to build exactly `Disk`.
- `Compactor` (compactor.dfy):
  - the two scans as loops (`FindNextFreeBlock`, `FindPrevFileBlock`), each
    proved equal to a recursive specification (`NextFree`, `PrevFile`) that
    says which index it finds;
  - `SwapBlocks` on an `array<Block>`;
  - `Compact`, a reference definition of the two-pointer result on values.
    A leading file block stays. A trailing free block stays. Otherwise the
    last file block goes to the front and the leading free block goes to the
    back;
  - `CompactDisk`, the in-place loop, proved to leave exactly
    `Compact(old disk)`.
  Lemmas show that `Compact` permutes the disk, partitions it and is
  idempotent. The early return inside the loop (pt1.py:48-49, marked by its
  author as possibly wrong) is proved unreachable. The model has an
  `assert false` in that branch, and `ScansSucceedAfterSwap` gives the reason.
- `Checksum` (checksum.dfy): `SolvePt1` is proved to compute `EarlyStopSum`.
  On every partitioned disk, and so on every compacted disk, `EarlyStopSum`
  equals `FileSum`, the full checksum that skips free blocks.

A disk with no free block, or no file block, might be expected to compact to
itself unchanged. The code does not do that. If either scan
before the loop finds nothing, `i` or `j` is `None`. The comparison `i < j` at
pt1.py:42 then raises `TypeError` in Python 3, and the disk is left untouched.
This covers the empty disk and inputs such as `"5"` or `"0"`. The model
follows the code: `CompactDisk` returns `RaisedTypeError` in exactly these
cases.

## Model

| member | source | states |
|---|---|---|
| `Parser.Digits` | src/advent_of_code_2024/09/pt1.py:4 | Succeeds iff every character is `'0'..'9'`. On success it gives one value per character, equal to that digit's value. Otherwise it reports the first character that is not a digit (the `ValueError` of `int(c)`). |
| `Parser.Disk` | src/advent_of_code_2024/09/pt1.py:5-14 | The expanded disk is as long as the sum of the digit values. |
| `Parser.DiskRunContents` | src/advent_of_code_2024/09/pt1.py:6-13 | The block at offset `t` of the run for digit `m` is at position `Sum(nums[..m]) + t`. It is `File(m / 2)` for even `m` and `Free` for odd `m`. So the file id counter advances after every even-position digit, including a `0`. |
| `Parser.DiskFileIdsBounded` | src/advent_of_code_2024/09/pt1.py:5-10 | Every file id on the disk is smaller than the number of even positions, i.e. the number of ids handed out. |
| `Parser.ParseInput` | src/advent_of_code_2024/09/pt1.py:3-14 | Returns the digit error when `Digits` fails; otherwise returns exactly `Disk(digits)`. The loop's counter `file_index` is `(idx + 1) / 2` throughout. |
| `Compactor.NextFree` | src/advent_of_code_2024/09/pt1.py:16-23 | Finds the smallest index `>= i` holding a free block; every index in between holds a file. `None` means every index from `i` on holds a file. |
| `Compactor.PrevFile` | src/advent_of_code_2024/09/pt1.py:25-32 | Finds the largest index `<= j` holding a file block; every index in between is free. `None` means every index from 0 to `j` is free, including when `j = -1`. |
| `Compactor.FindNextFreeBlock` | src/advent_of_code_2024/09/pt1.py:16-23 | The scan loop returns `NextFree(disk, i)`. Started beyond the end, it returns `i` itself, as the source does. |
| `Compactor.FindPrevFileBlock` | src/advent_of_code_2024/09/pt1.py:25-32 | The scan loop returns `PrevFile(disk, j)`. |
| `Compactor.SwapBlocks` | src/advent_of_code_2024/09/pt1.py:34-37 | Entries `i` and `j` are exchanged. Every other entry and the length are unchanged, and the multiset of blocks is kept. |
| `Compactor.Compact` | src/advent_of_code_2024/09/pt1.py:39-50 | The reference compaction has the same length as the disk. |
| `Compactor.CompactPermutes` | src/advent_of_code_2024/09/pt1.py:39-50 | Compaction is a permutation: the same file blocks with multiplicity, and the same number of free blocks. |
| `Compactor.CompactPartitions` | src/advent_of_code_2024/09/pt1.py:39-50 | After compaction every file block comes before every free block. |
| `Compactor.PartitionedIsFixed` | src/advent_of_code_2024/09/pt1.py:40-42 | An already compacted disk is left unchanged. |
| `Compactor.CompactIdempotent` | src/advent_of_code_2024/09/pt1.py:39-50 | Compacting twice gives the same disk as compacting once. |
| `Compactor.SwapStepPreservesCompact` | src/advent_of_code_2024/09/pt1.py:42-43 | Suppose every block before `i` is a file and every block after `j` is free. Then swapping the free block at `i` with the file block at `j` does not change the final compaction. |
| `Compactor.ScansSucceedAfterSwap` | src/advent_of_code_2024/09/pt1.py:43-49 | After a swap with `i < j`, the forward scan from `i` finds a free block in `(i, j]`. The backward scan from `j` finds a file block in `[i, j)`. So neither is `None` and the early return is unreachable. |
| `Compactor.InitialScans` | src/advent_of_code_2024/09/pt1.py:40-42 | The two scans before the loop both succeed iff the disk has a free block and a file block. When they do, their results satisfy the loop invariant. |
| `Compactor.LoopStep` | src/advent_of_code_2024/09/pt1.py:42-45 | One iteration keeps the loop invariant. The pointers' distance `j - i` strictly decreases, so the loop terminates. The final compaction is unchanged. |
| `Compactor.CompactDisk` | src/advent_of_code_2024/09/pt1.py:39-50 | Raises `TypeError` (disk untouched) iff the disk has no free block or no file block. Otherwise it leaves exactly `Compact(old disk)`, which is a partitioned permutation of the old disk. |
| `Compactor.CompactedDiskSkipsLoop` | src/advent_of_code_2024/09/pt1.py:40-42 | On a compacted disk with both kinds of block, the first free index is greater than the last file index, so the loop body never runs. |
| `Checksum.SolvePt1` | src/advent_of_code_2024/09/pt1.py:52-58 | The loop returns `EarlyStopSum(disk, 0)`: the sum of `idx * id` up to the first free block. |
| `Checksum.EarlyStopSumsBeforeFirstFree` | src/advent_of_code_2024/09/pt1.py:52-58 | The early-stopping scan equals the full checksum of the blocks before the first free block, or of the whole disk when there is no free block. |
| `Checksum.EarlyStopMatchesFileSum` | src/advent_of_code_2024/09/pt1.py:52-58 | On a partitioned disk the early-stopping scan equals the full checksum that skips free blocks. |
| `Checksum.ChecksumOfCompactedDisk` | src/advent_of_code_2024/09/pt1.py:52-58 | For every disk, scanning its compaction the way `solve_pt1` does gives the full checksum of that compaction. |

## Left out

- The `__main__` block (pt1.py:60-66): it only wires the stages together and prints.
- The sample constant (pt1.py:1) is not evaluated in the model. A concrete check that it gives 1928 would need more solver resources than the general lemmas.
- `Parser.Digits`: only the ASCII digits `'0'..'9'` are accepted. Python's `int(c)` also accepts other Unicode decimal digits; those are not modelled.
- `Parser.ParseInput` returns a sequence value built by appending. Python's list identity is not modelled; the compactor takes the blocks as an `array<Block>`.
- `Compactor.FindPrevFileBlock` requires `j < len(disk)`: Python raises `IndexError` from `disk[j]` beyond that, and no caller does it. Python's negative indexing is not modelled, because the loop guard `idx >= 0` prevents it.
- `Compactor.FindNextFreeBlock` takes a non-negative start index. A negative start would index from the end in Python, and no caller does that.
- Python's unbounded integers are modelled as `nat`; there is no overflow to model.
