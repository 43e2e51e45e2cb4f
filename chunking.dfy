/** The work split of the chunked count: the worker count, the chunk size, the
    half-open ranges the submission loop hands out, and the join of the per-range counts. */
module Chunking {
  import opened Numeric
  import opened Counting

  /** A half-open index range [from, to) of the number list, handled by one worker. */
  datatype Range = Range(from: nat, to: nat)

  /** The ranges tile [lo, hi): each is non-empty, the first starts at lo, each next one
      starts where the previous one ends, and the last one ends at hi. */
  predicate Tiles(ranges: seq<Range>, lo: nat, hi: nat) {
    && (|ranges| == 0 ==> lo == hi)
    && (|ranges| > 0 ==> ranges[0].from == lo && ranges[|ranges| - 1].to == hi)
    && (forall k :: 0 <= k < |ranges| ==> ranges[k].from < ranges[k].to)
    && (forall k :: 0 <= k < |ranges| - 1 ==> ranges[k].to == ranges[k + 1].from)
  }

  /** Every range lies inside [0, size). */
  predicate WithinList(ranges: seq<Range>, size: nat) {
    forall k :: 0 <= k < |ranges| ==> ranges[k].from <= ranges[k].to <= size
  }

  lemma {:induction false} TilesOrdered(ranges: seq<Range>, lo: nat, hi: nat, k1: nat, k2: nat)
    requires Tiles(ranges, lo, hi) && k1 < k2 < |ranges|
    ensures ranges[k1].to <= ranges[k2].from
    decreases k2 - k1
  {
    if k1 + 1 < k2 {
      TilesOrdered(ranges, lo, hi, k1 + 1, k2);
    }
  }

  /** Index j lies in one of the ranges. */
  predicate Covered(ranges: seq<Range>, j: int) {
    exists k :: 0 <= k < |ranges| && ranges[k].from <= j < ranges[k].to
  }

  /** Tiling ranges are a partition of [lo, hi): they stay inside it, they are pairwise
      disjoint (in order), and every index of it lies in one of them. */
  lemma TilesPartition(ranges: seq<Range>, lo: nat, hi: nat)
    requires Tiles(ranges, lo, hi)
    ensures forall k :: 0 <= k < |ranges| ==> lo <= ranges[k].from < ranges[k].to <= hi
    ensures forall k1, k2 :: 0 <= k1 < k2 < |ranges| ==> ranges[k1].to <= ranges[k2].from
    ensures forall j :: lo <= j < hi ==> Covered(ranges, j)
  {
    forall k1, k2 | 0 <= k1 < k2 < |ranges|
      ensures ranges[k1].to <= ranges[k2].from
    {
      TilesOrdered(ranges, lo, hi, k1, k2);
    }
    forall j | lo <= j < hi
      ensures Covered(ranges, j)
    {
      var k := 0;
      while ranges[k].to <= j
        invariant 0 <= k < |ranges| && ranges[k].from <= j
        decreases |ranges| - k
      {
        k := k + 1;
      }
    }
  }

  /** A tiling stays a tiling when its last range is dropped. */
  lemma TilesInit(ranges: seq<Range>, lo: nat, hi: nat)
    requires Tiles(ranges, lo, hi) && |ranges| > 0
    ensures Tiles(ranges[..|ranges| - 1], lo, ranges[|ranges| - 1].from)
  {
  }

  /** The chunk size `(size + workers - 1) / workers` is the ceiling of size / workers. */
  function ChunkSize(size: nat, workers: nat): (c: nat)
    requires workers >= 1
    ensures size <= c * workers < size + workers
    ensures size >= 1 ==> 1 <= c <= size
  {
    CeilingDivision(size, workers);
    (size + workers - 1) / workers
  }

  lemma CeilingDivision(size: nat, workers: nat)
    requires workers >= 1
    ensures var c := (size + workers - 1) / workers;
      c >= 0 && size <= c * workers < size + workers && (size >= 1 ==> 1 <= c <= size)
  {
    var c := (size + workers - 1) / workers;
    assert c * workers == size + workers - 1 - (size + workers - 1) % workers;
    if size >= 1 {
      if c <= 0 {
        MulMonotone(c, 0, workers);
      }
      if c > size {
        MulMonotone(size + 1, c, workers);
        MulMonotone(1, workers, size);
      }
    }
  }

  /** The ranges the submission loop creates from index start on:
      [start, min(start + chunkSize, size)), then the same from start + chunkSize. */
  function ChunksFrom(start: nat, size: nat, chunkSize: nat): seq<Range>
    requires start < size ==> chunkSize >= 1
    decreases size - start
  {
    if start >= size then []
    else [Range(start, Min(start + chunkSize, size))] + ChunksFrom(start + chunkSize, size, chunkSize)
  }

  /** Every range holds at most chunkSize indices, and all but the last exactly chunkSize. */
  predicate FullChunks(ranges: seq<Range>, chunkSize: nat) {
    forall k :: 0 <= k < |ranges| ==>
      && ranges[k].to - ranges[k].from <= chunkSize
      && (k < |ranges| - 1 ==> ranges[k].to - ranges[k].from == chunkSize)
  }

  /** A non-empty range [lo, mid) in front of a tiling of [mid, hi) tiles [lo, hi). */
  lemma TilesCons(first: Range, rest: seq<Range>, lo: nat, hi: nat)
    requires first.from == lo < first.to && Tiles(rest, first.to, hi)
    ensures Tiles([first] + rest, lo, hi)
  {
    var rs := [first] + rest;
    forall k | 0 <= k < |rs| - 1
      ensures rs[k].to == rs[k + 1].from
    {
      if k > 0 {
        assert rs[k] == rest[k - 1] && rs[k + 1] == rest[k];
      }
    }
  }

  /** The loop's ranges tile [start, size). */
  lemma {:induction false} ChunksTile(start: nat, size: nat, chunkSize: nat)
    requires start <= size && (start < size ==> chunkSize >= 1)
    ensures Tiles(ChunksFrom(start, size, chunkSize), start, size)
    decreases size - start
  {
    if start < size {
      var first := Range(start, Min(start + chunkSize, size));
      var rest := ChunksFrom(start + chunkSize, size, chunkSize);
      if start + chunkSize < size {
        ChunksTile(start + chunkSize, size, chunkSize);
      } else {
        assert rest == [];
      }
      TilesCons(first, rest, start, size);
    }
  }

  /** The loop's ranges hold chunkSize indices each, the last one possibly fewer. */
  lemma {:induction false} ChunksFull(start: nat, size: nat, chunkSize: nat)
    requires start <= size && (start < size ==> chunkSize >= 1)
    ensures FullChunks(ChunksFrom(start, size, chunkSize), chunkSize)
    decreases size - start
  {
    var rs := ChunksFrom(start, size, chunkSize);
    if start < size {
      var first := Range(start, Min(start + chunkSize, size));
      var rest := ChunksFrom(start + chunkSize, size, chunkSize);
      assert rs == [first] + rest;
      if start + chunkSize < size {
        ChunksFull(start + chunkSize, size, chunkSize);
        forall k | 0 <= k < |rs|
          ensures rs[k].to - rs[k].from <= chunkSize
          ensures k < |rs| - 1 ==> rs[k].to - rs[k].from == chunkSize
        {
          if k > 0 {
            assert rs[k] == rest[k - 1];
          }
        }
      } else {
        assert rest == [];
      }
    }
  }

  /** The loop makes ceil((size - start) / chunkSize) ranges. */
  lemma {:induction false} ChunksCount(start: nat, size: nat, chunkSize: nat)
    requires start <= size && chunkSize >= 1
    ensures var n := |ChunksFrom(start, size, chunkSize)|;
      size - start <= n * chunkSize < size - start + chunkSize
    decreases size - start
  {
    if start < size {
      var n := |ChunksFrom(start + chunkSize, size, chunkSize)|;
      if start + chunkSize <= size {
        ChunksCount(start + chunkSize, size, chunkSize);
      } else {
        assert n == 0;
      }
      assert (n + 1) * chunkSize == n * chunkSize + chunkSize;
    }
  }

  /** With chunkSize = ChunkSize(size, workers) the loop makes between 1 and workers ranges,
      so no worker of the pool is asked for twice. */
  lemma ChunksAtMostWorkers(size: nat, workers: nat)
    requires size >= 1 && workers >= 1
    ensures 1 <= |ChunksFrom(0, size, ChunkSize(size, workers))| <= workers
  {
    var c := ChunkSize(size, workers);
    var n := |ChunksFrom(0, size, c)|;
    ChunksCount(0, size, c);
    assert (workers + 1) * c == c * workers + c;
    MulCancelLess(n, workers + 1, c);
  }

  /** The sum of a list of partial counts, added in list order. */
  function Sum(xs: seq<int>): int {
    if |xs| == 0 then 0 else Sum(xs[..|xs| - 1]) + xs[|xs| - 1]
  }

  lemma {:induction false} SumAppend(a: seq<int>, b: seq<int>)
    ensures Sum(a + b) == Sum(a) + Sum(b)
  {
    if |b| == 0 {
      assert a + b == a;
    } else {
      assert (a + b)[..|a + b| - 1] == a + b[..|b| - 1];
      SumAppend(a, b[..|b| - 1]);
    }
  }

  /** Taking out any one partial count leaves the rest to add: the total does not depend
      on the order in which partial counts are collected. */
  lemma SumTakeOut(xs: seq<int>, k: nat)
    requires k < |xs|
    ensures Sum(xs) == Sum(xs[..k] + xs[k + 1..]) + xs[k]
  {
    var front, x, back, tail := xs[..k], xs[k], xs[k + 1..], xs[k..];
    assert xs == front + tail;
    assert tail == [x] + back;
    SumAppend(front, tail);
    SumAppend([x], back);
    SumAppend(front, back);
    assert Sum([x]) == x by {
      assert [x][..0] == [];
    }
  }

  /** Each worker's result: the prime count of its own range. */
  ghost function LocalCounts(numbers: seq<Int64>, ranges: seq<Range>): (counts: seq<nat>)
    requires WithinList(ranges, |numbers|)
    ensures |counts| == |ranges|
  {
    seq(|ranges|, k requires 0 <= k < |ranges| => PrimeCount(numbers[ranges[k].from..ranges[k].to]))
  }

  /** Submitting one more range adds its count at the end. */
  lemma LocalCountsSnoc(numbers: seq<Int64>, ranges: seq<Range>, r: Range)
    requires WithinList(ranges, |numbers|) && r.from <= r.to <= |numbers|
    ensures WithinList(ranges + [r], |numbers|)
    ensures LocalCounts(numbers, ranges + [r]) == LocalCounts(numbers, ranges) + [PrimeCount(numbers[r.from..r.to])]
  {
  }

  /** Tiling ranges of [lo, hi) lie in a list of at least hi elements. */
  lemma TilesWithinList(ranges: seq<Range>, lo: nat, hi: nat, size: nat)
    requires Tiles(ranges, lo, hi) && hi <= size
    ensures WithinList(ranges, size)
    ensures |ranges| > 0 ==> lo <= ranges[|ranges| - 1].from
  {
    TilesPartition(ranges, lo, hi);
  }

  /** Dropping the last range drops the last partial count. */
  lemma LocalCountsInit(numbers: seq<Int64>, ranges: seq<Range>)
    requires WithinList(ranges, |numbers|) && |ranges| > 0
    ensures WithinList(ranges[..|ranges| - 1], |numbers|)
    ensures var n := |ranges|;
      Sum(LocalCounts(numbers, ranges)) ==
      Sum(LocalCounts(numbers, ranges[..n - 1])) + PrimeCount(numbers[ranges[n - 1].from..ranges[n - 1].to])
  {
    var n := |ranges|;
    assert LocalCounts(numbers, ranges)[..n - 1] == LocalCounts(numbers, ranges[..n - 1]);
  }

  /** Counting numbers[lo..hi] is counting numbers[lo..mid] and numbers[mid..hi]. */
  lemma PrimeCountSplit(numbers: seq<Int64>, lo: nat, mid: nat, hi: nat)
    requires lo <= mid <= hi <= |numbers|
    ensures PrimeCount(numbers[lo..hi]) == PrimeCount(numbers[lo..mid]) + PrimeCount(numbers[mid..hi])
  {
    assert numbers[lo..hi] == numbers[lo..mid] + numbers[mid..hi];
    PrimeCountAppend(numbers[lo..mid], numbers[mid..hi]);
  }

  /** Summing the per-range counts of ranges that tile [lo, hi) gives the count of
      numbers[lo..hi]: the chunked count agrees with the sequential one. */
  lemma {:induction false} ChunkedCountIsSequential(numbers: seq<Int64>, ranges: seq<Range>, lo: nat, hi: nat)
    requires Tiles(ranges, lo, hi) && lo <= hi <= |numbers|
    ensures WithinList(ranges, |numbers|)
    ensures Sum(LocalCounts(numbers, ranges)) == PrimeCount(numbers[lo..hi])
    decreases |ranges|
  {
    TilesWithinList(ranges, lo, hi, |numbers|);
    if |ranges| > 0 {
      var n := |ranges|;
      var last := ranges[n - 1];
      TilesInit(ranges, lo, hi);
      ChunkedCountIsSequential(numbers, ranges[..n - 1], lo, last.from);
      LocalCountsInit(numbers, ranges);
      PrimeCountSplit(numbers, lo, last.from, hi);
    }
  }

  /** The chunks of countPrimeMultiThread for `workers` workers, 1 <= workers <= size: at most
      `workers` non-empty ranges that tile the list, whose partial counts add up to the
      sequential count. */
  lemma ChunkedCountMatches(numbers: seq<Int64>, workers: nat)
    requires 1 <= workers <= |numbers|
    ensures var ranges := ChunksFrom(0, |numbers|, ChunkSize(|numbers|, workers));
      && Tiles(ranges, 0, |numbers|) && WithinList(ranges, |numbers|)
      && 1 <= |ranges| <= workers
      && Sum(LocalCounts(numbers, ranges)) == PrimeCount(numbers)
  {
    var size := |numbers|;
    var ranges := ChunksFrom(0, size, ChunkSize(size, workers));
    ChunksTile(0, size, ChunkSize(size, workers));
    ChunksAtMostWorkers(size, workers);
    ChunkedCountIsSequential(numbers, ranges, 0, size);
    assert numbers[0..size] == numbers;
  }

  /** One round of the submission loop: the range at i moves from the ranges still to
      create to the ranges created. */
  lemma ChunksNext(ranges: seq<Range>, i: nat, size: nat, chunkSize: nat)
    requires i < size && chunkSize >= 1
    requires ranges + ChunksFrom(i, size, chunkSize) == ChunksFrom(0, size, chunkSize)
    ensures ranges + [Range(i, Min(i + chunkSize, size))] + ChunksFrom(i + chunkSize, size, chunkSize)
      == ChunksFrom(0, size, chunkSize)
  {
    var first := Range(i, Min(i + chunkSize, size));
    var rest := ChunksFrom(i + chunkSize, size, chunkSize);
    assert ChunksFrom(i, size, chunkSize) == [first] + rest;
    assert ranges + [first] + rest == ranges + ([first] + rest);
  }

  /** The invariant of the submission loop is kept by one round: creating the range at i and
      appending its count. */
  lemma SubmitStep(numbers: seq<Int64>, ranges: seq<Range>, locals: seq<int>, i: nat, chunkSize: nat, local: int)
    requires i < |numbers| && chunkSize >= 1
    requires ranges + ChunksFrom(i, |numbers|, chunkSize) == ChunksFrom(0, |numbers|, chunkSize)
    requires WithinList(ranges, |numbers|) && locals == LocalCounts(numbers, ranges)
    requires local == PrimeCount(numbers[i..Min(i + chunkSize, |numbers|)])
    ensures var r := Range(i, Min(i + chunkSize, |numbers|));
      && (ranges + [r]) + ChunksFrom(i + chunkSize, |numbers|, chunkSize) == ChunksFrom(0, |numbers|, chunkSize)
      && WithinList(ranges + [r], |numbers|) && locals + [local] == LocalCounts(numbers, ranges + [r])
  {
    var r := Range(i, Min(i + chunkSize, |numbers|));
    LocalCountsSnoc(numbers, ranges, r);
    ChunksNext(ranges, i, |numbers|, chunkSize);
  }

  /** The submission loop shared by the three programs: chunk i covers
      [i, min(i + chunkSize, size)) and its task's result is the prime count of that range.
      A task only reads its own range, so it is run to its result where it is submitted. */
  method SubmitChunks(numbers: seq<Int64>, chunkSize: nat) returns (locals: seq<int>)
    requires (|numbers| > 0 ==> chunkSize >= 1) && WithinTrialLimit(numbers)
    ensures WithinList(ChunksFrom(0, |numbers|, chunkSize), |numbers|)
    ensures locals == LocalCounts(numbers, ChunksFrom(0, |numbers|, chunkSize))
  {
    var size := |numbers|;
    locals := [];
    ghost var ranges: seq<Range> := [];
    var i := 0;
    while i < size
      invariant ranges + ChunksFrom(i, size, chunkSize) == ChunksFrom(0, size, chunkSize)
      invariant WithinList(ranges, size) && locals == LocalCounts(numbers, ranges)
      decreases size - i
    {
      var from := i;
      var to := Min(i + chunkSize, size);
      var local := CountRange(numbers, from, to);
      SubmitStep(numbers, ranges, locals, i, chunkSize, local);
      locals := locals + [local];
      ranges := ranges + [Range(from, to)];
      i := i + chunkSize;
    }
    assert ChunksFrom(i, size, chunkSize) == [];
    assert ranges + [] == ranges;
  }
}
