# Parallel bucket sort, modelled in Dafny

This project models `parallel_bucketsort.c`, a bucket sort over non-negative
`int` values in C with pthreads. The sort runs in four steps.

1. `find_divider` scans the input for its maximum, starting from 0.
2. The table gets `max / divisor + 1` buckets. Each bucket is a linked chain that starts as a zero-filled sentinel node. `table_insert` prepends every value to bucket `value / divisor`.
3. `nr_threads` workers each take a contiguous chunk of bucket indices, `[i * buckets / T, (i + 1) * buckets / T)`. For every bucket in its chunk, a worker:
   - copies the chain into an array with `conv`, dropping the sentinel;
   - sorts that array with an in-place insertion sort;
   - stores the array in the result slot for that bucket, or `NULL` when the bucket is empty.
4. `join` copies the slots one after another into the final array.

The model is imperative, like the source.
- The table is an `array<NodeList>`, and `NodeList` is a datatype chain of nodes. A node is never changed after it is linked, so a chain is a value.
- Each bucket array is an `array<int>`, and its `Length` is the C `len`.
- The result slots are an `array<array?<int>>`, with `null` as the empty marker.
- Every C function with a loop is a method with loop invariants.
- The workers run one chunk after another in `RunWorkers`. The chunk lemmas prove what running them in parallel relies on: the chunks are disjoint ranges that cover every bucket. Each worker writes only the slots of its own chunk and never changes the table.

The proved results:
- The final array is a sorted permutation of the input, with the same length.
- The result does not depend on the worker count or the divisor.
- Every partial step has its own proved property: the maximum, the bucket index range, the insertion order in chains, the sentinel dropped by `conv`, sorting and permutation, the chunk partition, and the merge offsets.

Modules:
- `Ordering`: sortedness and reversal.
- `Division`: facts about floor division.
- `BucketTable`: the maximum scan, the table, insertion and `conv`.
- `InsertionSort`: the per-bucket sort.
- `Chunks`: the work split.
- `Merge`: `join` and why its result is sorted.
- `ParallelBucketSort`: the worker and the whole sort.

## Model

| member | source | states |
|---|---|---|
| BucketTable.FindDivider | parallel_bucketsort.c:101-109 | The result is at least 0 and at least every element. It is 0 or one of the elements, and it is attained whenever the input is non-empty and non-negative. |
| BucketTable.IndexInRange | parallel_bucketsort.c:245 | Every value in `[0, max]` has a bucket index in `[0, max / divisor + 1)`. |
| BucketTable.IndexOrder | parallel_bucketsort.c:146 | A value in a lower-indexed bucket is strictly smaller than any value in a higher-indexed bucket. |
| BucketTable.SlotCapacitySuffices | parallel_bucketsort.c:249 | The `max + 1` result slots the source allocates are never fewer than the bucket count. |
| BucketTable.CreateTable | parallel_bucketsort.c:128-136 | Gives a fresh table of `amount` buckets, each holding only the sentinel node. |
| BucketTable.Insert | parallel_bucketsort.c:117-122 | Bucket `index` becomes a new node holding `value` in front of its old chain. Every other bucket is unchanged. |
| BucketTable.TableInsert | parallel_bucketsort.c:144-148 | Each bucket b gets exactly the input values with index b, pushed in input order onto its old chain. |
| BucketTable.PushAllValues | parallel_bucketsort.c:117-122 | A chain that received xs by prepending reads back as xs reversed, followed by the old chain. |
| BucketTable.SentinelChainPayload | parallel_bucketsort.c:155-171 | For a chain that started as a lone sentinel, dropping the sentinel leaves exactly the inserted values, newest first. The count is the number of values inserted, so it is 0 for a bucket that received nothing. |
| BucketTable.Conv | parallel_bucketsort.c:155-171 | Gives a fresh array one shorter than the chain, holding every chain value except the sentinel, in chain order. |
| InsertionSort.SwapStep | parallel_bucketsort.c:189-193 | Swapping the moving value with a larger left neighbour moves the single out-of-order position one step left. |
| InsertionSort.EqualStep | parallel_bucketsort.c:185-193 | Stepping over an equal left neighbour without a swap keeps the array sorted except at the next position. Duplicates are therefore sorted correctly. |
| InsertionSort.StopAtSmaller | parallel_bucketsort.c:186-188 | Stopping at a smaller left neighbour leaves the prefix fully sorted. |
| InsertionSort.SinkLeft | parallel_bucketsort.c:184-194 | One pass of the outer loop turns a sorted prefix `a[..i]` into a sorted `a[..i + 1]`. `a[..i + 1]` is a permutation of its old contents, and everything from index `i + 1` on is unchanged. |
| InsertionSort.InsertSort | parallel_bucketsort.c:176-198 | The array ends sorted and is a permutation of its old contents. An empty bucket is left as it is. |
| Chunks.ChunkEnds | parallel_bucketsort.c:254-255 | The first chunk starts at bucket 0 and the last chunk stops at `buckets`. |
| Chunks.StartMonotone | parallel_bucketsort.c:254 | Chunk starts never decrease as the worker index grows. |
| Chunks.ChunkBounds | parallel_bucketsort.c:254-255 | Every chunk lies within `[0, buckets]`, with start ≤ stop. Each chunk stops exactly where the next one starts. |
| Chunks.ChunksPartition | parallel_bucketsort.c:252-259 | Every bucket index belongs to exactly one worker's chunk. |
| Chunks.ChunkSizeNearEqual | parallel_bucketsort.c:254-255 | Each chunk holds `buckets / T` or `buckets / T + 1` buckets. |
| Chunks.OversubscribedChunks | parallel_bucketsort.c:252-259 | With more workers than buckets, no chunk holds more than one bucket and chunk 0 is empty. |
| ParallelBucketSort.SortBuckets | parallel_bucketsort.c:221-230 | For each bucket in `[start, stop)`, the slot holds `null` exactly when the bucket received no values. Otherwise it holds a fresh, sorted permutation of those values. Slots outside the chunk and the table are unchanged. |
| ParallelBucketSort.Distribute | parallel_bucketsort.c:244-247 | `max` is the maximum as `find_divider` computes it: at least 0 and at least every value, and 0 or one of the values. The table has exactly `max / divisor + 1` buckets, and every value's bucket index lies within it. Each chain, minus its sentinel, is that bucket's share of the input in reverse insertion order. |
| ParallelBucketSort.RunWorkers | parallel_bucketsort.c:251-262 | Once all chunks have run, every slot holds its bucket: `null` or a sorted permutation of the bucket's values. The table is unchanged. |
| ParallelBucketSort.SlotsAreSortedBuckets | parallel_bucketsort.c:221-230 | The slot contents, taken in index order, are sorted permutations of the buckets' shares of the input. |
| ParallelBucketSort.SlotsMergeSorted | parallel_bucketsort.c:264-271 | Laying the slots end to end gives a sorted permutation of the input that is exactly as long as the input. |
| Merge.TotalLengthStep | parallel_bucketsort.c:212 | The running offset `next` grows by each slot's length. |
| Merge.ConcatAt | parallel_bucketsort.c:209-211 | The k-th value of slot i lands at the slot's running offset plus k, within the total length. |
| Merge.Join | parallel_bucketsort.c:205-214 | `final[..total]` is the slots' contents concatenated in index order, and an empty slot contributes nothing. Nothing past the total is written, and the slots are unchanged. |
| Merge.JoinAsWritten | parallel_bucketsort.c:205-214 | The same as Join, but only for slots that are all non-null, since every slot is dereferenced. |
| Merge.BucketsMergeSorted | parallel_bucketsort.c:264-271 | Sorted buckets that together cover the input concatenate into a sorted permutation of it, with the same length. |
| Ordering.SortedPermutationUnique | parallel_bucketsort.c:243-275 | Two sorted arrangements of the same values are equal, so the sort's result is determined by its input. |
| ParallelBucketSort.BucketSort | parallel_bucketsort.c:243-275 | For non-negative input, a positive worker count and a positive divisor, the result has the input's length and is a sorted permutation of the input. |
| ParallelBucketSort.WorkerCountIrrelevant | parallel_bucketsort.c:243-275 | Two runs on the same input with any worker counts and divisors return the same array. |
| ParallelBucketSort.EmptyBucketReachesJoin | parallel_bucketsort.c:288-292 | On the driver's input for length 1, which is `[1]`, with divisor 1, the workers leave `null` in slot 0 of the 2 slots. |

## Left out

- Threads: the workers run one after another. The chunk lemmas show their slot ranges are disjoint, so their order does not matter. Thread creation, joining and the `meta_t` records are not modelled.
- Memory management is not modelled: `free`, `destroy_table`, `destroy_arr` and `create_node`'s allocation. `destroy_arr` would dereference a `null` slot in the same way `join` does.
- `print_arr` and `print_bucket` are output only.
- `main`: argument parsing and `atoi` are left out. Only its input pattern (n, n-1, …, 1) is used, in `EmptyBucketReachesJoin`.
- `bucket_sort` requires a positive divisor and worker count. For 0 the C code divides by zero or starts no workers, so those inputs have no defined behaviour to model.
- Negative values are excluded. The model requires every value to be ≥ 0. For such values, C's truncating division equals Dafny's floor division. In C, a value ≤ -divisor gets a negative bucket index, which is undefined behaviour.
- 32-bit overflow is not modelled: neither of the values nor of `i * buckets` in the chunk bounds. Integers are unbounded.
- Result-slot sizing: the source allocates `max + 1` slots and uses only the first `buckets`. The model allocates `buckets` slots. `SlotCapacitySuffices` proves that `max + 1` is always enough.
- The `i+1 > bucket->len` test inside `insert_sort` can never be true inside its loop, so it is left out.
- `join`'s `size` parameter is taken to be the slot array's length; the source always passes `buckets` for it.

## Findings

| source | as written | input that shows it | evidently intended | confidence | as-written member | corrected member |
|---|---|---|---|---|---|---|
| parallel_bucketsort.c:205-214 | `join` reads `arr[i]->array` and `arr[i]->len` for every slot. `sort_buckets` stores `NULL` for an empty bucket (lines 225-227). | The driver's input `[1]` (length 1) with divisor 1 leaves bucket 0 empty, as `ParallelBucketSort.EmptyBucketReachesJoin` shows. An empty input also breaks it, since its single bucket is empty. | An empty slot contributes nothing to the merge. | not executed | Merge.JoinAsWritten | Merge.Join |
