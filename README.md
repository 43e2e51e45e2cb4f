# Prime count benchmark: a verified model of its counting core

The benchmark reads a list of signed 64-bit integers from a text file and counts the primes
in it twice: once in a single loop, and once by cutting the list into contiguous chunks,
one per worker, counting each chunk in its own task and adding the partial counts. The same
program exists in Java (`Primecountbench.java`), Kotlin (`Primecountbench.kt`) and Go
(`primecountbench.go`). This project models, in Dafny, everything of it that is deterministic
and sequential:

- `isPrime`: screening by 2 and 3, then trial division by `i` and `i + 2` for
  `i = 5, 11, 17, ...` while `i * i <= n` (module `Primality`);
- the sequential count and the count a single worker makes over its range (module `Counting`);
- the work split of the chunked count: the chunk size `(size + workers - 1) / workers`, the
  half-open ranges `[i, min(i + chunkSize, size))` created by the submission loop, and the
  sum of the partial counts (module `Chunking`);
- turning the file content into numbers: maximal runs of ASCII digits and `-`, each parsed as
  a signed 64-bit decimal, others skipped; and decimal integer parsing itself (module `Parsing`);
- what differs between the programs: the Java and Kotlin worker count `min(threadCount, size)`
  with the exceptions it leads to, and `parseThreadCount` clamping to 1 (module `JvmBench`);
  the Go worker clamp into `[1, max(1, size)]`, the draining of the result channel in any
  order, and `parseThreadCount` falling back for counts below 1 (module `GoBench`).

Java and Kotlin behave identically in every modelled function, so one module covers both.
The modules shared by all three programs cite the Java lines below; the same code is at
these lines of the other two files:

| part | Primecountbench.java | Primecountbench.kt | primecountbench.go |
|---|---|---|---|
| isPrime | 134-151 | 121-135 | 151-168 |
| sequential count | 90-98 | 75-83 | 95-103 |
| chunked count | 100-132 | 85-119 | 105-149 |
| submission loop | 109-122 | 94-109 | 119-137 |
| parseThreadCount | 63-70 | 57-58 | 58-64 |
| readNumbers | 72-88 | 60-73 | 66-93 |

The central results:

- `Primality.IsPrime` returns true exactly for the mathematical primes, for every `n` whose
  loop square cannot overflow.
- `Chunking.ChunkedCountMatches`: the chunks of the submission loop tile `[0, size)`. There
  are at most `workers` of them, and their partial counts add up to the sequential count.
- `JvmBench.CountPrimeMultiThread` and `GoBench.CountPrimesMultiThread` return that count, or
  in Java and Kotlin the exception the code raises. The Go join is proved for every order in
  which the goroutines deliver their results.
- `Parsing.ReadFormatted`: the numbers of any list, written in decimal and separated by
  non-number text, are read back exactly.

Unlike primecountbench.go, which raises the worker count to at least 1 (lines 111-113) and
so returns 0 for an empty list, the Java and Kotlin code does not return 0 for it.
`Math.min(threadCount, 0)` is 0 for a non-negative thread count, so the chunk size divides
by zero (`ArithmeticException`). For a negative thread count the thread pool constructor
throws (`IllegalArgumentException`), even for an empty list. The model follows the code;
`main` never passes an empty list (Primecountbench.java:25-28).

## Model

| member | source | states |
|---|---|---|
| Primality.IsPrime | marcus_crosby/project03/Primecountbench.java:134-151 | the result is true iff n is prime (no divisor strictly between 1 and n), for n below 3037000499²; false below 2, true for 2 and 3, false for other multiples of 2 or 3 |
| Primality.NoSmallDivisorIsPrime | marcus_crosby/project03/Primecountbench.java:145-151 | when the loop ends (i*i > n) with no divisor below i found, n is prime |
| Primality.CandidateDivides | marcus_crosby/project03/Primecountbench.java:146-148 | a candidate i or i+2 with i*i <= n that divides n shows n is not prime |
| Primality.NextCandidate | marcus_crosby/project03/Primecountbench.java:145-149 | one loop round: if neither i nor i+2 divides n, nothing below i+6 divides n, and i+6 is again of the form 6k+5 with a square in the 64-bit range |
| Primality.SkippedCandidates | marcus_crosby/project03/Primecountbench.java:145 | of i+1, i+3, i+4, i+5 (i = 6k+5) none divides an n that 2 and 3 do not divide, so stepping by 6 misses no divisor |
| Counting.PrimeCount | marcus_crosby/project03/Primecountbench.java:90-98 | the number of primes in a list is at most its length |
| Counting.PrimeCountZero | marcus_crosby/project03/Primecountbench.java:90-98 | the count is 0 iff no element is prime |
| Counting.PrimeCountAppend | marcus_crosby/project03/Primecountbench.java:124-127 | the count of a concatenation is the sum of the counts of its parts |
| Counting.PrimeCountTakeOut | marcus_crosby/project03/Primecountbench.java:92-96 | removing one element lowers the count by 1 if it is prime and by 0 otherwise |
| Counting.PrimeCountPermutation | marcus_crosby/project03/Primecountbench.java:90-98 | lists with the same multiset of elements have the same count: order does not matter |
| Counting.CountPrimeSingleThread | marcus_crosby/project03/Primecountbench.java:90-98 | the loop returns the number of primes in the list, between 0 and its length |
| Counting.CountRange | marcus_crosby/project03/Primecountbench.java:112-120 | a worker task returns the number of primes in numbers[from..to), between 0 and to - from |
| Chunking.ChunkSize | marcus_crosby/project03/Primecountbench.java:104 | (size + workers - 1) / workers is the ceiling of size / workers: size <= c*workers < size + workers, and 1 <= c <= size for a non-empty list |
| Chunking.CeilingDivision | marcus_crosby/project03/Primecountbench.java:104 | the same bounds, proved for the quotient expression itself |
| Chunking.TilesPartition | marcus_crosby/project03/Primecountbench.java:109-111 | ranges that tile [lo, hi) stay inside it, are pairwise disjoint in order, and every index of it lies in one of them |
| Chunking.ChunksTile | marcus_crosby/project03/Primecountbench.java:109-111 | the ranges the loop creates from i = start on are non-empty, contiguous, start at start and end at size |
| Chunking.ChunksFull | marcus_crosby/project03/Primecountbench.java:109-111 | every range holds at most chunkSize indices, and every range but the last exactly chunkSize |
| Chunking.ChunksCount | marcus_crosby/project03/Primecountbench.java:109 | the loop creates n ranges with size - start <= n*chunkSize < size - start + chunkSize |
| Chunking.ChunksAtMostWorkers | marcus_crosby/project03/Primecountbench.java:103-111 | for a non-empty list and the chunk size of `workers` workers, the loop creates between 1 and `workers` ranges |
| Chunking.ChunksNext | marcus_crosby/project03/Primecountbench.java:109-111 | one loop round moves the range at i from the ranges still to create to those created |
| Chunking.LocalCountsSnoc | marcus_crosby/project03/Primecountbench.java:121 | submitting one more range appends that range's prime count to the partial counts |
| Chunking.SumTakeOut | marcus_crosby/project03/primecountbench.go:144-147 | the total is the sum of any one partial count and the sum of the others, so the join may take the counts in any order |
| Chunking.ChunkedCountIsSequential | marcus_crosby/project03/Primecountbench.java:112-128 | for ranges that tile [lo, hi), the partial counts add up to the count of numbers[lo..hi] |
| Chunking.ChunkedCountMatches | marcus_crosby/project03/Primecountbench.java:103-128 | for 1 <= workers <= size, the loop's ranges tile [0, size), number between 1 and workers, and their partial counts add up to the sequential count |
| Chunking.SubmitStep | marcus_crosby/project03/Primecountbench.java:109-122 | one round of the submission loop keeps its invariant: the ranges created so far followed by those still to create are all the loop's ranges, and the partial counts are those of the ranges created |
| Chunking.SubmitChunks | marcus_crosby/project03/Primecountbench.java:109-122 | the submission loop creates exactly the ranges [i, min(i + chunkSize, size)) for i = 0, chunkSize, ... and one partial count per range, the prime count of that range |
| Parsing.ParseInteger | marcus_crosby/project03/Primecountbench.java:82-85 | a parsed value lies within the bounds of the result type; any other value is rejected |
| Parsing.ParseIntegerShape | marcus_crosby/project03/Primecountbench.java:82 | accepted text is a sign '+' or '-' or a digit, followed only by digits, and is neither empty nor a lone sign |
| Parsing.ParseFormat | marcus_crosby/project03/Primecountbench.java:82-85 | parsing the decimal text of x gives x when x is within the bounds and is rejected otherwise |
| Parsing.RunLength | marcus_crosby/project03/Primecountbench.java:74 | the run of digits and '-' at the start of a text is maximal: the next character, if any, is neither |
| Parsing.Tokens | marcus_crosby/project03/Primecountbench.java:74 | every token is a non-empty run of digits and '-' |
| Parsing.TokensAfterSeparator | marcus_crosby/project03/Primecountbench.java:74 | characters other than digits and '-' produce no token |
| Parsing.TokensOfToken | marcus_crosby/project03/Primecountbench.java:74 | a token followed by a non-token character (or by the end) is one token of its own |
| Parsing.TokensOfJoin | marcus_crosby/project03/Primecountbench.java:74 | tokens joined by any non-empty separator come back exactly: none is lost, split or merged |
| Parsing.TokenNumber | marcus_crosby/project03/Primecountbench.java:81-85 | one token yields at most one number |
| Parsing.MalformedTokenSkipped | marcus_crosby/project03/Primecountbench.java:78-85 | a lone '-' and a run with '-' after its first character, such as "1-2", yield no number |
| Parsing.ReadNumbers | marcus_crosby/project03/Primecountbench.java:72-88 | the loop keeps, in order, the value of every token that parses as a signed 64-bit decimal and nothing else |
| Parsing.TokenNumberFormat | marcus_crosby/project03/Primecountbench.java:81-85 | the decimal text of a 64-bit integer yields exactly that integer |
| Parsing.KeepAll | marcus_crosby/project03/Primecountbench.java:77-86 | tokens that each parse to a number are all kept, in their order |
| Parsing.ReadFormatted | marcus_crosby/project03/Primecountbench.java:72-88 | reading the decimal texts of any list of 64-bit integers, separated by non-number text, yields that list |
| JvmBench.ParseThreadCount | marcus_crosby/project03/Primecountbench.java:63-70 | text that parses as an int gives max(1, parsed), so 0 and negative counts become 1 and positive counts are kept; other text gives the processor count; so the result is at least 1 when the processor count is |
| JvmBench.ParseThreadCountPositive | marcus_crosby/project03/Primecountbench.java:65-66 | the decimal text of a positive int gives that count |
| JvmBench.ParseThreadCountNonPositive | marcus_crosby/project03/Primecountbench.java:66 | the decimal text of 0 or a negative int gives 1 |
| JvmBench.ParseThreadCountOutOfRange | marcus_crosby/project03/Primecountbench.java:67-68 | the text of a number outside the int range gives the processor count |
| JvmBench.CountPrimeMultiThread | marcus_crosby/project03/Primecountbench.java:100-132 | a non-empty list and a positive thread count give the sequential count, which is the sum of the prime counts of exactly the ranges the submission loop creates for the chunk size of min(threadCount, size) workers; those ranges tile the list and number at most min(threadCount, size); a zero worker count raises ArithmeticException; a negative thread count raises IllegalArgumentException |
| GoBench.ParseThreadCount | marcus_crosby/project03/primecountbench.go:58-64 | a parsed count of at least 1 is returned; text Atoi rejects, and counts below 1, give the fallback; so the result is at least 1 when the fallback is |
| GoBench.ParseThreadCountPositive | marcus_crosby/project03/primecountbench.go:58-64 | the decimal text of a positive int gives that count |
| GoBench.ParseThreadCountNonPositive | marcus_crosby/project03/primecountbench.go:60-61 | the decimal text of 0 or a negative int gives the fallback, not 1 |
| GoBench.ParseThreadCountOutOfRange | marcus_crosby/project03/primecountbench.go:59-61 | the text of a number outside the 64-bit range gives the fallback |
| GoBench.ClampWorkers | marcus_crosby/project03/primecountbench.go:107-113 | the worker count lies in [1, max(1, size)] whatever the thread count is, and equals the thread count when that is already in [1, size] |
| GoBench.CountPrimesMultiThread | marcus_crosby/project03/primecountbench.go:105-149 | the total is the sequential count and the sum of the prime counts of exactly the ranges the submission loop creates for the chunk size of the clamped worker count, for every order in which the results arrive; an empty list gives 0 with no range; otherwise the ranges tile the list and number at most max(1, min(threadCount, size)), the channel's capacity |

## Left out

- `main` in all three programs: argument handling, usage text, console output, the timing
  with `System.nanoTime` / `time.Now` and the float conversion of elapsed times.
- The file read (`Files.readString`, `os.ReadFile`): `Parsing.ReadNumbers` takes the file
  content as a string. A failed read is not modelled.
- The processor count (`Runtime.availableProcessors`, `runtime.NumCPU`) is a parameter.
- The executor, futures, `shutdown`, goroutines, `sync.WaitGroup` and the channel. Each task
  only reads its own range, so it is run to its result where it is submitted. The Java and
  Kotlin join takes the futures in submission order. The Go join takes the results in an
  arbitrary order chosen by the model. No task can fail, so the `ExecutionException` and
  `InterruptedException` paths do not arise.
- Primality.IsPrime: requires n < 3037000499². Above that bound, `i * i` leaves the signed
  64-bit range in all three programs, and the wrapped loop is not modelled.
- Counting.CountPrimeSingleThread and the chunked counts carry the same bound on every
  element, since they call `isPrime`.
- JvmBench.CountPrimeMultiThread: requires at most 2^30 numbers, so that
  `size + workers - 1` and `i + chunkSize` stay within a 32-bit `int`. Wrap-around for
  larger lists is not modelled.
- GoBench.CountPrimesMultiThread: Go's `int` is taken as 64 bits, and lists are bounded by
  2^62 elements so that `size + workers - 1` cannot overflow.
- JvmBench.ParseThreadCount: `Integer.parseInt` and `toIntOrNull` also accept non-ASCII
  decimal digits; the model accepts ASCII digits only. Go's `strconv.Atoi` accepts ASCII
  only, so `GoBench.ParseThreadCount` is exact. The tokens given to `Long.parseLong`,
  `toLongOrNull` and `strconv.ParseInt` consist of ASCII digits and '-' only, so
  `Parsing.ReadNumbers` is exact.
- Parsing.Tokens: Java and Kotlin split on runs of other characters, which can leave a
  leading (and, in Kotlin, a trailing) empty piece; the code skips both as blank. Go's `FieldsFunc` leaves no empty
  field. `Tokens` yields the non-empty runs directly, so the model has no blank-token test.
