/** The parts of Primecountbench.java that differ from the Go program; Primecountbench.kt
    has the same behaviour line for line (minOf, coerceAtLeast, toIntOrNull). */
module JvmBench {
  import opened Numeric
  import opened Primality
  import opened Counting
  import opened Chunking
  import opened Parsing

  /** parseThreadCount: a parsed `int` below 1 is raised to 1; text that is not an `int`
      falls back to the processor count. */
  function ParseThreadCount(text: string, availableProcessors: Int32): (threads: Int32)
    ensures ParseInteger(text, Int32Min, Int32Max).Some? ==>
      threads == Max(1, ParseInteger(text, Int32Min, Int32Max).value) && threads >= 1
    ensures ParseInteger(text, Int32Min, Int32Max).None? ==> threads == availableProcessors
    ensures availableProcessors >= 1 ==> threads >= 1
  {
    match ParseInteger(text, Int32Min, Int32Max)
    case Some(parsed) => Max(1, parsed)
    case None => availableProcessors
  }

  /** The decimal text of a positive `int` gives that thread count. */
  lemma ParseThreadCountPositive(n: int, availableProcessors: Int32)
    requires 1 <= n <= Int32Max
    ensures ParseThreadCount(Format(n), availableProcessors) == n
  {
    ParseFormat(n, Int32Min, Int32Max);
  }

  /** "0", "-5" and every other non-positive `int` are clamped to one thread. */
  lemma ParseThreadCountNonPositive(n: int, availableProcessors: Int32)
    requires Int32Min <= n <= 0
    ensures ParseThreadCount(Format(n), availableProcessors) == 1
  {
    ParseFormat(n, Int32Min, Int32Max);
  }

  /** A number outside the `int` range is a NumberFormatException: the processor count is used. */
  lemma ParseThreadCountOutOfRange(n: int, availableProcessors: Int32)
    requires n < Int32Min || n > Int32Max
    ensures ParseThreadCount(Format(n), availableProcessors) == availableProcessors
  {
    ParseFormat(n, Int32Min, Int32Max);
  }

  /** How countPrimeMultiThread ends: with the total, or with the exception it throws
      before any task is submitted. */
  datatype MultiCount =
    | Total(count: int)
      /** `(size + workers - 1) / workers` with workers == 0 */
    | ArithmeticException
      /** Executors.newFixedThreadPool(workers) with workers < 0 */
    | IllegalArgumentException

  /** The list sizes for which every index sum of countPrimeMultiThread fits in an `int`. */
  const MaxListSize: int := 0x4000_0000

  /** countPrimeMultiThread with each submitted task run to its result at once (a task only
      reads its own range) and the futures collected in submission order. */
  method CountPrimeMultiThread(numbers: seq<Int64>, threadCount: Int32) returns (r: MultiCount, ghost ranges: seq<Range>)
    requires |numbers| <= MaxListSize && WithinTrialLimit(numbers)
    ensures threadCount >= 0 && (|numbers| == 0 || threadCount == 0) ==> r == ArithmeticException
    ensures threadCount < 0 ==> r == IllegalArgumentException
    ensures |numbers| > 0 && threadCount > 0 ==> r == Total(PrimeCount(numbers))
    ensures |numbers| > 0 && threadCount > 0 ==>
      && ranges == ChunksFrom(0, |numbers|, ChunkSize(|numbers|, Min(threadCount, |numbers|)))
      && Tiles(ranges, 0, |numbers|) && WithinList(ranges, |numbers|)
      && 1 <= |ranges| <= Min(threadCount, |numbers|)
      && r == Total(Sum(LocalCounts(numbers, ranges)))
  {
    var size := |numbers|;
    var workers := Min(threadCount, size);
    if workers == 0 {
      return ArithmeticException, [];
    }
    if workers < 0 {
      // The truncating quotient does not throw for a negative divisor; the pool
      // constructor then rejects the negative size, even for an empty list.
      return IllegalArgumentException, [];
    }
    assert size + workers - 1 <= Int32Max;
    var chunkSize := ChunkSize(size, workers);
    // Every loop index i is below size, so i + chunkSize never leaves the `int` range.
    assert size - 1 + chunkSize <= Int32Max;
    var futures := SubmitChunks(numbers, chunkSize);
    ranges := ChunksFrom(0, size, chunkSize);
    var total := 0;
    for k := 0 to |futures|
      invariant total == Sum(futures[..k])
    {
      assert futures[..k + 1][..k] == futures[..k];
      total := total + futures[k];
    }
    assert futures[..|futures|] == futures;
    ChunkedCountMatches(numbers, workers);
    return Total(total), ranges;
  }
}
