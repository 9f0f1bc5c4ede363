/** The disk: a sequence of blocks, each owned by one file or free. */
module Blocks {

  /** One storage unit of the disk. The Python code stores the owning file's id
      as an int and a free unit as None; here the two cases are tagged. */
  datatype Block = Free | File(id: nat)

  /** The result of a scan that may find nothing (None in the Python code). */
  datatype Option<T> = None | Some(value: T)

  /** Every file block comes before every free block:
      an occupied prefix followed by a free suffix. */
  predicate Partitioned(s: seq<Block>)
  {
    forall k1, k2 :: 0 <= k1 < k2 < |s| && s[k1].Free? ==> s[k2].Free?
  }

  predicate HasFree(s: seq<Block>)
  {
    exists k :: 0 <= k < |s| && s[k].Free?
  }

  predicate HasFile(s: seq<Block>)
  {
    exists k :: 0 <= k < |s| && s[k].File?
  }
}
