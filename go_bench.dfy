/** The parts of primecountbench.go that differ from the JVM programs. Go's `int` is taken
    to be 64 bits wide. */
module GoBench {
  import opened Numeric
  import opened Primality
  import opened Counting
  import opened Chunking
  import opened Parsing

  /** parseThreadCount: the parsed `int` when it is at least 1, the fallback otherwise
      (text that strconv.Atoi rejects, or a count below 1). */
  function ParseThreadCount(text: string, fallback: Int64): (threads: Int64)
    ensures match ParseInteger(text, Int64Min, Int64Max)
      case Some(parsed) => threads == if parsed >= 1 then parsed else fallback
      case None => threads == fallback
    ensures threads != fallback ==> threads >= 1
    ensures fallback >= 1 ==> threads >= 1
  {
    match ParseInteger(text, Int64Min, Int64Max)
    case Some(parsed) => if parsed < 1 then fallback else parsed
    case None => fallback
  }

  /** The decimal text of a positive count gives that thread count. */
  lemma ParseThreadCountPositive(n: int, fallback: Int64)
    requires 1 <= n <= Int64Max
    ensures ParseThreadCount(Format(n), fallback) == n
  {
    ParseFormat(n, Int64Min, Int64Max);
  }

  /** Unlike the JVM programs, "0" and "-5" do not give one thread: they give the fallback. */
  lemma ParseThreadCountNonPositive(n: int, fallback: Int64)
    requires Int64Min <= n <= 0
    ensures ParseThreadCount(Format(n), fallback) == fallback
  {
    ParseFormat(n, Int64Min, Int64Max);
  }

  /** A number outside the 64-bit range is an Atoi error: the fallback is used. */
  lemma ParseThreadCountOutOfRange(n: int, fallback: Int64)
    requires n < Int64Min || n > Int64Max
    ensures ParseThreadCount(Format(n), fallback) == fallback
  {
    ParseFormat(n, Int64Min, Int64Max);
  }

  /** The worker count of countPrimesMultiThread: threadCount, lowered to size, then raised
      to 1. Whatever threadCount is, it lies in [1, max(1, size)]. */
  function ClampWorkers(threadCount: int, size: nat): (workers: int)
    ensures 1 <= workers <= Max(1, size)
    ensures 1 <= threadCount <= size ==> workers == threadCount
    ensures size >= 1 && threadCount > size ==> workers == size
  {
    var lowered := if threadCount > size then size else threadCount;
    if lowered < 1 then 1 else lowered
  }

  /** A bound on slice lengths under which `size + workers - 1` stays a 64-bit `int`. */
  const MaxSliceLength: int := 0x4000_0000_0000_0000

  /** countPrimesMultiThread with each goroutine run to its result where it is started.
      The results channel is drained in whatever order the goroutines finished: the loop
      takes out any pending result. */
  method CountPrimesMultiThread(numbers: seq<Int64>, threadCount: Int64) returns (total: int, ghost ranges: seq<Range>)
    requires |numbers| <= MaxSliceLength && WithinTrialLimit(numbers)
    ensures total == PrimeCount(numbers)
    ensures ranges == ChunksFrom(0, |numbers|, ChunkSize(|numbers|, ClampWorkers(threadCount, |numbers|)))
    ensures WithinList(ranges, |numbers|) && total == Sum(LocalCounts(numbers, ranges))
    ensures |numbers| == 0 ==> total == 0 && ranges == []
    ensures |numbers| > 0 ==>
      Tiles(ranges, 0, |numbers|) && 1 <= |ranges| <= Max(1, Min(threadCount, |numbers|))
  {
    var size := |numbers|;
    var workers := ClampWorkers(threadCount, size);
    assert size + workers - 1 <= Int64Max;
    var chunkSize := ChunkSize(size, workers);
    // Every loop index i is below size, so i + chunkSize never leaves the `int` range.
    assert size > 0 ==> size - 1 + chunkSize <= Int64Max;
    var results := SubmitChunks(numbers, chunkSize);
    ranges := ChunksFrom(0, size, chunkSize);
    if size > 0 {
      ChunkedCountMatches(numbers, workers);
    } else {
      assert numbers == [];
    }
    // No goroutine blocks on the channel, whose capacity is workers.
    assert |results| <= workers;
    total := 0;
    var pending := results;
    while pending != []
      invariant total + Sum(pending) == Sum(results)
      decreases |pending|
    {
      var k :| 0 <= k < |pending|;
      SumTakeOut(pending, k);
      total := total + pending[k];
      pending := pending[..k] + pending[k + 1..];
    }
  }
}
