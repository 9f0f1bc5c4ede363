/** Expanding the run-length-encoded disk map into a block sequence
    (parse_input in src/advent_of_code_2024/09/pt1.py). */
module Parser {
  import opened Blocks

  /** int(c) fails with a ValueError on a character that is not a digit. */
  datatype ParseError = MalformedInput(c: char)

  datatype Result<T> = Ok(value: T) | Err(error: ParseError)

  predicate IsDigit(c: char)
  {
    '0' <= c <= '9'
  }

  /** The list comprehension `[int(c) for c in input_raw]`: the digit values,
      or the error for the first character that is not a digit. */
  function Digits(input: string): (r: Result<seq<nat>>)
    ensures r.Ok? <==> forall k :: 0 <= k < |input| ==> IsDigit(input[k])
    ensures r.Ok? ==> |r.value| == |input|
    ensures r.Ok? ==> forall k :: 0 <= k < |input| ==>
      r.value[k] <= 9 && r.value[k] == input[k] as int - '0' as int
    ensures r.Err? ==> exists k :: 0 <= k < |input| && !IsDigit(input[k]) &&
                                  r.error == MalformedInput(input[k]) &&
                                  (forall k' :: 0 <= k' < k ==> IsDigit(input[k']))
  {
    if |input| == 0 then Ok([])
    else if !IsDigit(input[0]) then Err(MalformedInput(input[0]))
    else match Digits(input[1..])
      case Err(e) => Err(e)
      case Ok(rest) => Ok([input[0] as int - '0' as int] + rest)
  }

  /** The block every unit of the run described by the digit at position idx
      holds: even positions describe file idx / 2, odd positions free space. */
  function RunBlock(idx: nat): Block
  {
    if idx % 2 == 0 then File(idx / 2) else Free
  }

  function Run(b: Block, n: nat): (r: seq<Block>)
    ensures |r| == n && forall k :: 0 <= k < n ==> r[k] == b
  {
    seq(n, _ => b)
  }

  function Sum(nums: seq<nat>): nat
  {
    if |nums| == 0 then 0 else Sum(nums[..|nums| - 1]) + nums[|nums| - 1]
  }

  /** The disk a sequence of digit values describes: the runs one after another. */
  function Disk(nums: seq<nat>): (r: seq<Block>)
    ensures |r| == Sum(nums)
  {
    if |nums| == 0 then []
    else Disk(nums[..|nums| - 1]) + Run(RunBlock(|nums| - 1), nums[|nums| - 1])
  }

  /** The block at offset t of the run for digit m sits at position
      Sum(nums[..m]) + t and holds RunBlock(m). */
  lemma {:induction false} DiskRunContents(nums: seq<nat>, m: nat, t: nat)
    requires m < |nums| && t < nums[m]
    ensures Sum(nums[..m]) + t < |Disk(nums)|
    ensures Disk(nums)[Sum(nums[..m]) + t] == RunBlock(m)
  {
    var last := |nums| - 1;
    var init := nums[..last];
    assert Disk(nums) == Disk(init) + Run(RunBlock(last), nums[last]);
    assert Sum(nums) == Sum(init) + nums[last];
    if m == last {
      assert nums[..m] == init;
    } else {
      assert init[..m] == nums[..m];
      DiskRunContents(init, m, t);
      SumPrefixBound(nums, m + 1);
      assert nums[..m + 1][..m] == nums[..m];
      assert Sum(nums[..m + 1]) == Sum(nums[..m]) + nums[m];
    }
  }

  /** The sum of a prefix is at most the sum of the whole. */
  lemma {:induction false} SumPrefixBound(nums: seq<nat>, n: nat)
    requires n <= |nums|
    ensures Sum(nums[..n]) <= Sum(nums)
    decreases |nums| - n
  {
    if n < |nums| {
      SumPrefixBound(nums, n + 1);
      assert nums[..n + 1][..n] == nums[..n];
    } else {
      assert nums[..n] == nums;
    }
  }

  /** Every file id on the disk is below the number of file runs. */
  lemma {:induction false} DiskFileIdsBounded(nums: seq<nat>, p: nat)
    requires p < |Disk(nums)| && Disk(nums)[p].File?
    ensures Disk(nums)[p].id < (|nums| + 1) / 2
  {
    var last := |nums| - 1;
    var init := nums[..last];
    assert Disk(nums) == Disk(init) + Run(RunBlock(last), nums[last]);
    if p < |Disk(init)| {
      DiskFileIdsBounded(init, p);
    }
  }

  /** Extending the digits by one appends that digit's run. */
  lemma DiskSnoc(nums: seq<nat>, idx: nat)
    requires idx < |nums|
    ensures Disk(nums[..idx + 1]) == Disk(nums[..idx]) + Run(RunBlock(idx), nums[idx])
  {
    assert nums[..idx + 1][..idx] == nums[..idx];
  }

  /** Appending one more block of a run. */
  lemma RunSnoc(b: Block, t: nat)
    ensures Run(b, t) + [b] == Run(b, t + 1)
  {
  }

  /** The file id counter of parse_input, (idx + 1) / 2 before the digit at
      position idx, is the id RunBlock assigns, and it advances exactly after
      even positions. */
  lemma CounterStep(idx: nat, fileIndex: nat)
    requires fileIndex == (idx + 1) / 2
    ensures idx % 2 == 0 ==> RunBlock(idx) == File(fileIndex) && fileIndex + 1 == (idx + 2) / 2
    ensures idx % 2 == 1 ==> RunBlock(idx) == Free && fileIndex == (idx + 2) / 2
  {
  }

  /** parse_input: the digit values, then for each digit a run of its file id
      (even position, the id counter advancing afterwards even for a 0) or of
      free blocks (odd position), appended one block at a time. */
  method ParseInput(input: string) returns (r: Result<seq<Block>>)
    ensures Digits(input).Err? ==> r == Err(Digits(input).error)
    ensures Digits(input).Ok? ==> r == Ok(Disk(Digits(input).value))
  {
    var parsed := Digits(input);
    if parsed.Err? {
      return Err(parsed.error);
    }
    var nums := parsed.value;
    var fileIndex: nat, ret: seq<Block> := 0, [];
    for idx := 0 to |nums|
      invariant fileIndex == (idx + 1) / 2
      invariant ret == Disk(nums[..idx])
    {
      DiskSnoc(nums, idx);
      CounterStep(idx, fileIndex);
      if idx % 2 == 0 {
        for t := 0 to nums[idx]
          invariant ret == Disk(nums[..idx]) + Run(File(fileIndex), t)
        {
          RunSnoc(File(fileIndex), t);
          ret := ret + [File(fileIndex)];
        }
        fileIndex := fileIndex + 1;
      } else {
        for t := 0 to nums[idx]
          invariant ret == Disk(nums[..idx]) + Run(Free, t)
        {
          RunSnoc(Free, t);
          ret := ret + [Free];
        }
      }
    }
    assert nums[..|nums|] == nums;
    return Ok(ret);
  }
}
