/**
 * `get_optimal_batch_size` (app.py lines 133-145): a threshold table over the
 * available memory. `available / 1024**3` is compared with whole gigabyte
 * counts, which the model does on bytes directly.
 */
module BatchSize {
  const GiB: int := 1024 * 1024 * 1024

  function OptimalBatchSize(availableBytes: int): (n: int)
    ensures n == 1000 <==> availableBytes >= 16 * GiB
    ensures n == 500 <==> 8 * GiB <= availableBytes < 16 * GiB
    ensures n == 250 <==> 4 * GiB <= availableBytes < 8 * GiB
    ensures n == 100 <==> availableBytes < 4 * GiB
  {
    if availableBytes >= 16 * GiB then 1000
    else if availableBytes >= 8 * GiB then 500
    else if availableBytes >= 4 * GiB then 250
    else 100
  }

  /** More free memory never gives a smaller batch. */
  lemma BatchSizeMonotone(a: int, b: int)
    requires a <= b
    ensures OptimalBatchSize(a) <= OptimalBatchSize(b)
  {
  }
}
