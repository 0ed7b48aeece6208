/**
 * The work split: bucket indices [0, buckets) are cut into `threads` contiguous
 * chunks, chunk i being [i * buckets / threads, (i + 1) * buckets / threads).
 */
module Chunks {
  import opened Division

  /** First bucket index of worker i's chunk. */
  function ChunkStart(i: int, buckets: int, threads: int): (start: int)
    requires threads > 0
  {
    i * buckets / threads
  }

  /** One past the last bucket index of worker i's chunk. */
  function ChunkStop(i: int, buckets: int, threads: int): (stop: int)
    requires threads > 0
  {
    (i + 1) * buckets / threads
  }

  /** Bucket b is one of worker i's buckets. */
  predicate InChunk(b: int, i: int, buckets: int, threads: int)
    requires threads > 0
  {
    ChunkStart(i, buckets, threads) <= b < ChunkStop(i, buckets, threads)
  }

  /** Chunk starts never decrease from one worker to a later one. */
  lemma StartMonotone(i: int, j: int, buckets: int, threads: int)
    requires 0 <= i <= j && buckets >= 0 && threads > 0
    ensures ChunkStart(i, buckets, threads) <= ChunkStart(j, buckets, threads)
  {
    MulMonotone(i, j, buckets);
    DivMonotone(i * buckets, j * buckets, threads);
  }

  /** The first chunk starts at bucket 0 and the last one stops at `buckets`. */
  lemma ChunkEnds(buckets: int, threads: int)
    requires buckets >= 0 && threads > 0
    ensures ChunkStart(0, buckets, threads) == 0
    ensures ChunkStop(threads - 1, buckets, threads) == buckets
    ensures ChunkStart(threads, buckets, threads) == buckets
  {
    DivUnique(threads * buckets, threads, buckets, 0);
  }

  /**
   * Every chunk is a well-formed range inside [0, buckets), and each one stops
   * exactly where the next one starts.
   */
  lemma ChunkBounds(i: int, buckets: int, threads: int)
    requires 0 <= i < threads && buckets >= 0
    ensures 0 <= ChunkStart(i, buckets, threads)
    ensures ChunkStart(i, buckets, threads) <= ChunkStop(i, buckets, threads) <= buckets
    ensures ChunkStop(i, buckets, threads) == ChunkStart(i + 1, buckets, threads)
  {
    ChunkEnds(buckets, threads);
    StartMonotone(0, i, buckets, threads);
    StartMonotone(i, i + 1, buckets, threads);
    StartMonotone(i + 1, threads, buckets, threads);
  }

  /** A bucket below worker n's stop belongs to one of the workers 0..n. */
  lemma {:induction false} CoveredUpTo(b: int, n: int, buckets: int, threads: int)
    requires 0 <= n < threads && buckets >= 0
    requires 0 <= b < ChunkStop(n, buckets, threads)
    ensures exists i :: 0 <= i <= n && InChunk(b, i, buckets, threads)
  {
    if b < ChunkStart(n, buckets, threads) {
      ChunkEnds(buckets, threads);
      assert n > 0;
      CoveredUpTo(b, n - 1, buckets, threads);
    } else {
      assert InChunk(b, n, buckets, threads);
    }
  }

  /**
   * The chunks partition the bucket indices: every bucket belongs to some worker,
   * and to one worker only.
   */
  lemma ChunksPartition(b: int, buckets: int, threads: int)
    requires 0 <= b < buckets && threads > 0
    ensures exists i :: 0 <= i < threads && InChunk(b, i, buckets, threads)
    ensures forall i, j ::
              (0 <= i < threads && 0 <= j < threads && InChunk(b, i, buckets, threads) && InChunk(b, j, buckets, threads))
              ==> i == j
  {
    ChunkEnds(buckets, threads);
    CoveredUpTo(b, threads - 1, buckets, threads);
    forall i, j | 0 <= i < threads && 0 <= j < threads &&
                  InChunk(b, i, buckets, threads) && InChunk(b, j, buckets, threads)
      ensures i == j
    {
      if i < j {
        StartMonotone(i + 1, j, buckets, threads);
      } else if j < i {
        StartMonotone(j + 1, i, buckets, threads);
      }
    }
  }

  /** Chunks are near-equal: each holds buckets / threads buckets, or one more. */
  lemma ChunkSizeNearEqual(i: int, buckets: int, threads: int)
    requires 0 <= i < threads && buckets >= 0
    ensures var size := ChunkStop(i, buckets, threads) - ChunkStart(i, buckets, threads);
            size == buckets / threads || size == buckets / threads + 1
  {
    var p, s := buckets / threads, buckets % threads;
    var q, r := i * buckets / threads, i * buckets % threads;
    assert (i + 1) * buckets == i * buckets + buckets;
    assert (i + 1) * buckets == (q + p) * threads + (r + s) by {
      assert i * buckets == q * threads + r;
      assert buckets == p * threads + s;
      assert (q + p) * threads == q * threads + p * threads;
    }
    if r + s < threads {
      DivUnique((i + 1) * buckets, threads, q + p, r + s);
    } else {
      assert (q + p + 1) * threads == (q + p) * threads + threads;
      DivUnique((i + 1) * buckets, threads, q + p + 1, r + s - threads);
    }
  }

  /**
   * With more workers than buckets, no chunk holds more than one bucket and the
   * first chunk is empty, so some workers have nothing to do.
   */
  lemma OversubscribedChunks(i: int, buckets: int, threads: int)
    requires 0 <= i < threads && 0 <= buckets < threads
    ensures ChunkStop(i, buckets, threads) - ChunkStart(i, buckets, threads) <= 1
    ensures ChunkStart(0, buckets, threads) == ChunkStop(0, buckets, threads)
  {
    DivUnique(buckets, threads, 0, buckets);
    ChunkSizeNearEqual(i, buckets, threads);
    ChunkSizeNearEqual(0, buckets, threads);
  }
}
