/** The block-partitioned accumulations. The range is cut into blocks; every
    block but the last is accumulated by a task or a thread (whose future is
    read here as the value it delivers) and the last by the caller; the block
    results are then added to the last block's result. */
module ParallelSum {

  /** The sum of a range. */
  function Sum(s: seq<int>): int
  {
    if s == [] then 0 else Sum(s[..|s| - 1]) + s[|s| - 1]
  }

  /** `std::accumulate(start, end, init)`, that is `AccumulateBlock`: a left
      fold of `+` starting from init. */
  function Accumulate(s: seq<int>, init: int): (r: int)
    ensures r == init + Sum(s)
    decreases |s|
  {
    if s == [] then init
    else
      assert s == [s[0]] + s[1..];
      SumPrepend(s[0], s[1..]);
      Accumulate(s[1..], init + s[0])
  }

  lemma {:induction false} SumPrepend(x: int, s: seq<int>)
    ensures Sum([x] + s) == x + Sum(s)
    decreases |s|
  {
    if s != [] {
      var t := [x] + s;
      assert t[..|t| - 1] == [x] + s[..|s| - 1];
      SumPrepend(x, s[..|s| - 1]);
    }
  }

  lemma {:induction false} SumConcat(a: seq<int>, b: seq<int>)
    ensures Sum(a + b) == Sum(a) + Sum(b)
    decreases |b|
  {
    if b == [] {
      assert a + b == a;
    } else {
      assert (a + b)[..|a + b| - 1] == a + b[..|b| - 1];
      SumConcat(a, b[..|b| - 1]);
    }
  }

  /** The blocks laid end to end. */
  function Flatten(blocks: seq<seq<int>>): seq<int>
  {
    if blocks == [] then [] else Flatten(blocks[..|blocks| - 1]) + blocks[|blocks| - 1]
  }

  lemma FlattenSnoc(blocks: seq<seq<int>>, b: seq<int>)
    ensures Flatten(blocks + [b]) == Flatten(blocks) + b
  {
    assert (blocks + [b])[..|blocks|] == blocks;
  }

  lemma {:induction false} MulMonotone(a: nat, b: nat, c: nat)
    requires a <= b
    ensures a * c <= b * c
    decreases b - a
  {
    if a < b {
      MulMonotone(a, b - 1, c);
      assert b * c == (b - 1) * c + c;
    }
  }

  /** The next block of `size` elements still lies in the range. */
  lemma BlockFits(i: nat, size: nat, count: nat, length: nat)
    requires i < count - 1 && (count - 1) * size <= length
    ensures i * size + size == (i + 1) * size <= length
  {
    MulMonotone(i + 1, count - 1, size);
  }

  /** One more block: the block results grow by the block's sum plus its
      starting value. */
  lemma BlockStep(s: seq<int>, i: nat, size: nat, blockStart: nat, results: seq<int>, blockInit: int)
    requires blockStart + size <= |s|
    requires Sum(results) == Sum(s[..blockStart]) + i * blockInit
    ensures Sum(results + [Accumulate(s[blockStart..blockStart + size], blockInit)])
            == Sum(s[..blockStart + size]) + (i + 1) * blockInit
  {
    assert (i + 1) * blockInit == i * blockInit + blockInit;
    var block := s[blockStart..blockStart + size];
    assert s[..blockStart + size] == s[..blockStart] + block;
    SumConcat(s[..blockStart], block);
    var res := Accumulate(block, blockInit);
    assert (results + [res])[..|results|] == results;
  }

  /** The loop invariant of `BlockedAccumulate` survives taking one more block. */
  lemma BlockLoopStep(s: seq<int>, i: nat, size: nat, blockStart: nat, results: seq<int>,
                      blocks: seq<seq<int>>, blockInit: int)
    requires blockStart + size <= |s|
    requires Flatten(blocks) == s[..blockStart]
    requires Sum(results) == Sum(s[..blockStart]) + i * blockInit
    ensures Flatten(blocks + [s[blockStart..blockStart + size]]) == s[..blockStart + size]
    ensures Sum(results + [Accumulate(s[blockStart..blockStart + size], blockInit)])
            == Sum(s[..blockStart + size]) + (i + 1) * blockInit
  {
    var block := s[blockStart..blockStart + size];
    BlockStep(s, i, size, blockStart, results, blockInit);
    assert s[..blockStart + size] == s[..blockStart] + block;
    FlattenSnoc(blocks, block);
  }

  /** The loop both variants share: `count - 1` blocks of `size` elements,
      each accumulated from `blockInit`, then the last block (the rest of the
      range) accumulated from `lastInit`, then `final_result += ` every block
      result in order. The blocks are returned as well: together they are
      the whole range, all but the last have `size` elements, and the last
      has what remains. */
  method BlockedAccumulate(s: seq<int>, size: nat, count: nat, blockInit: int, lastInit: int)
    returns (r: int, ghost blocks: seq<seq<int>>)
    requires count >= 1 && (count - 1) * size <= |s|
    ensures r == Sum(s) + (count - 1) * blockInit + lastInit
    ensures |blocks| == count && Flatten(blocks) == s
    ensures forall i :: 0 <= i < count - 1 ==> |blocks[i]| == size
    ensures |blocks[count - 1]| == |s| - (count - 1) * size
  {
    var results: seq<int> := [];
    blocks := [];
    var blockStart := 0;
    var i := 0;
    while i < count - 1
      invariant i <= count - 1 && blockStart == i * size <= |s|
      invariant |results| == i && |blocks| == i
      invariant Flatten(blocks) == s[..blockStart]
      invariant forall j :: 0 <= j < i ==> |blocks[j]| == size
      invariant Sum(results) == Sum(s[..blockStart]) + i * blockInit
    {
      BlockFits(i, size, count, |s|);
      var blockEnd := blockStart + size;
      var block := s[blockStart..blockEnd];
      var res := Accumulate(block, blockInit);
      BlockLoopStep(s, i, size, blockStart, results, blocks, blockInit);
      results := results + [res];
      blocks := blocks + [block];
      blockStart := blockEnd;
      i := i + 1;
    }
    var last := s[blockStart..];
    r := Accumulate(last, lastInit);
    FlattenSnoc(blocks, last);
    assert s[..blockStart] + last == s;
    SumConcat(s[..blockStart], last);
    blocks := blocks + [last];
    r := AddResults(r, results);
  }

  /** `for (block_result : results) final_result += block_result.get()`:
      every future is valid, so each block result is added once. */
  method AddResults(init: int, results: seq<int>) returns (r: int)
    ensures r == init + Sum(results)
  {
    r := init;
    var j := 0;
    while j < |results|
      invariant j <= |results|
      invariant r == init + Sum(results[..j])
    {
      assert results[..j + 1] == results[..j] + [results[j]];
      r := r + results[j];
      j := j + 1;
    }
    assert results[..j] == results;
  }

  /** `num_of_blocks = (length + chunk_size - 1) / chunk_size`. */
  function NumBlocks(length: nat, chunkSize: nat): (r: nat)
    requires chunkSize > 0
    ensures r == 0 <==> length == 0
  {
    (length + chunkSize - 1) / chunkSize
  }

  /** For a non-empty range, `num_of_blocks` is the ceiling of
      `length / chunk_size`: the first `num_of_blocks - 1` full chunks fit,
      and a non-empty remainder of at most one chunk is left for the last. */
  lemma NumBlocksIsCeiling(length: nat, chunkSize: nat)
    requires chunkSize > 0 && length > 0
    ensures NumBlocks(length, chunkSize) >= 1
    ensures (NumBlocks(length, chunkSize) - 1) * chunkSize < length <= NumBlocks(length, chunkSize) * chunkSize
  {
    var n, m := length + chunkSize - 1, NumBlocks(length, chunkSize);
    assert n == chunkSize * m + n % chunkSize;
    assert (m - 1) * chunkSize == m * chunkSize - chunkSize;
  }

  /** `parallelAccumulateThreadPool` as written: an empty range gives init;
      otherwise every submitted block starts from init and the caller's last
      block from `T()`, so init is counted once per submitted block and not
      at all when there is a single block. */
  method ParallelAccumulateThreadPool(s: seq<int>, init: int, chunkSize: nat)
    returns (r: int, ghost blocks: seq<seq<int>>)
    requires chunkSize > 0
    ensures |s| == 0 ==> r == init
    ensures |s| > 0 ==> && r == Sum(s) + (NumBlocks(|s|, chunkSize) - 1) * init
                        && |blocks| == NumBlocks(|s|, chunkSize) && Flatten(blocks) == s
                        && (forall i :: 0 <= i < |blocks| - 1 ==> |blocks[i]| == chunkSize)
                        && 0 < |blocks[|blocks| - 1]| <= chunkSize
    ensures init == 0 ==> r == Accumulate(s, init)
  {
    if |s| == 0 {
      return init, [];
    }
    NumBlocksIsCeiling(|s|, chunkSize);
    r, blocks := BlockedAccumulate(s, chunkSize, NumBlocks(|s|, chunkSize), init, 0);
  }

  /** With one block of input [1] and init 5 the result is 1, not
      `std::accumulate`'s 6. */
  method SingleBlockDropsInit() returns (r: int)
    ensures r == 1 && Accumulate([1], 5) == 6
  {
    ghost var blocks;
    r, blocks := ParallelAccumulateThreadPool([1], 5, 25);
    assert Sum([1]) == 1;
  }

  /** The thread-pool variant with init added once: the submitted blocks
      start from `T()` and the caller's last block from init. It equals
      `std::accumulate` on every range. */
  method ParallelAccumulateThreadPoolCorrected(s: seq<int>, init: int, chunkSize: nat)
    returns (r: int, ghost blocks: seq<seq<int>>)
    requires chunkSize > 0
    ensures r == Accumulate(s, init)
    ensures |s| > 0 ==> && |blocks| == NumBlocks(|s|, chunkSize) && Flatten(blocks) == s
                        && (forall i :: 0 <= i < |blocks| - 1 ==> |blocks[i]| == chunkSize)
                        && 0 < |blocks[|blocks| - 1]| <= chunkSize
  {
    if |s| == 0 {
      return init, [];
    }
    NumBlocksIsCeiling(|s|, chunkSize);
    r, blocks := BlockedAccumulate(s, chunkSize, NumBlocks(|s|, chunkSize), 0, init);
  }

  /** `number_of_threads` of the manual variant: `min(hw, ceil(length /
      min_per_thread))`, where a reported concurrency of 0 counts as 2. */
  function ManualThreadCount(length: nat, hardwareConcurrency: nat, minPerThread: nat): (r: nat)
    requires minPerThread > 0
    ensures r == 0 <==> length == 0
    ensures r <= if hardwareConcurrency == 0 then 2 else hardwareConcurrency
  {
    var hw := if hardwareConcurrency == 0 then 2 else hardwareConcurrency;
    var maximum := (length + minPerThread - 1) / minPerThread;
    if hw < maximum then hw else maximum
  }

  /** For a non-empty range there is at least one thread and at most as many
      as the hardware threads (2 if unknown) and as the range needs. */
  lemma ManualThreadCountBounds(length: nat, hardwareConcurrency: nat, minPerThread: nat)
    requires minPerThread > 0 && length > 0
    ensures 1 <= ManualThreadCount(length, hardwareConcurrency, minPerThread)
    ensures ManualThreadCount(length, hardwareConcurrency, minPerThread)
            <= if hardwareConcurrency == 0 then 2 else hardwareConcurrency
    ensures (ManualThreadCount(length, hardwareConcurrency, minPerThread) - 1) * minPerThread < length
  {
    NumBlocksIsCeiling(length, minPerThread);
    var k := ManualThreadCount(length, hardwareConcurrency, minPerThread);
    var m := NumBlocks(length, minPerThread);
    assert k <= m;
    if k < m {
      assert (k - 1) * minPerThread <= (m - 1) * minPerThread;
    }
  }

  /** For an empty range the thread count is 0, the divisor of
      `block_size = length / number_of_threads`. */
  lemma EmptyRangeHasNoThreads(hardwareConcurrency: nat, minPerThread: nat)
    requires minPerThread > 0
    ensures ManualThreadCount(0, hardwareConcurrency, minPerThread) == 0
  {
    assert (minPerThread - 1) / minPerThread == 0;
  }

  lemma BlocksFit(length: nat, k: nat)
    requires k >= 1
    ensures (k - 1) * (length / k) <= length
    ensures length - (k - 1) * (length / k) >= length / k
  {
    assert length == k * (length / k) + length % k;
    assert (k - 1) * (length / k) == k * (length / k) - length / k;
  }

  /** `parallelAccumulateManualThreading` as written, for a non-empty range
      (it divides by zero on an empty one): k threads, blocks of `length / k`
      elements, the last block the rest, which `BlocksFit` shows is at least
      as long as the others. Each thread starts from init and
      the last block from `T()`. */
  method ParallelAccumulateManualThreading(s: seq<int>, init: int, hardwareConcurrency: nat, minPerThread: nat)
    returns (r: int, ghost blocks: seq<seq<int>>)
    requires minPerThread > 0 && |s| > 0
    ensures var k := ManualThreadCount(|s|, hardwareConcurrency, minPerThread);
            && r == Sum(s) + (k - 1) * init
            && |blocks| == k && Flatten(blocks) == s
            && (forall i :: 0 <= i < k - 1 ==> |blocks[i]| == |s| / k)
            && |blocks[k - 1]| == |s| - (k - 1) * (|s| / k)
    ensures init == 0 ==> r == Accumulate(s, init)
  {
    ManualThreadCountBounds(|s|, hardwareConcurrency, minPerThread);
    var k := ManualThreadCount(|s|, hardwareConcurrency, minPerThread);
    BlocksFit(|s|, k);
    r, blocks := BlockedAccumulate(s, |s| / k, k, init, 0);
  }

  /** The manual variant with init added once and an empty range answered by
      init; it equals `std::accumulate` on every range. */
  method ParallelAccumulateManualThreadingCorrected(s: seq<int>, init: int, hardwareConcurrency: nat, minPerThread: nat)
    returns (r: int)
    requires minPerThread > 0
    ensures r == Accumulate(s, init)
  {
    if |s| == 0 {
      return init;
    }
    ManualThreadCountBounds(|s|, hardwareConcurrency, minPerThread);
    var k := ManualThreadCount(|s|, hardwareConcurrency, minPerThread);
    BlocksFit(|s|, k);
    ghost var blocks;
    r, blocks := BlockedAccumulate(s, |s| / k, k, 0, init);
  }

  /** Input [1, 2, 3], init 5, four hardware threads and one element per
      thread: three blocks, two of them started from init, give
      6 + 2 * 5 == 16 where `std::accumulate` gives 11. */
  method ThreeThreadsCountInitTwice() returns (r: int)
    ensures r == 16 && Accumulate([1, 2, 3], 5) == 11
  {
    ghost var blocks;
    r, blocks := ParallelAccumulateManualThreading([1, 2, 3], 5, 4, 1);
    assert ManualThreadCount(3, 4, 1) == 3;
    assert Sum([1, 2, 3]) == 6 by {
      assert [1, 2, 3][..2] == [1, 2];
      assert [1, 2][..1] == [1];
    }
  }
}
