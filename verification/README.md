# A verification of spdlog and fmt internals

The repository is a Qt/ZeroMQ command server that compiles in spdlog and the fmt
library bundled with it. This Dafny project models the parts of those libraries
whose correctness is not obvious, and proves what they are for:

- **Exact decimal printing.** A multi-word integer (`Bigint.dfy`, with the lemmas
  in `Digits.dfy`, `Alignment.dfy`, `Comparison.dfy`, `Columns.dfy`), fixed-precision
  Dragon4 on top of it (`Dragon.dfy`, `Rounding.dfy`), the Grisu counted-digit
  generator (`Grisu.dfy`), and `format_float`, which scales a value for Grisu
  (`SignedPowers.dfy`, `Scaling.dfy`) and hands it to Dragon4 when Grisu gives up
  (`FloatFormat.dfy`, `DoubleDigits.dfy`).
- **Word arithmetic around it.** Products of 64-bit words (`WideMultiply.dfy`),
  divisibility by modular inverse (`Divisibility.dfy`) and removal of trailing
  decimal zeros (`TrailingZeros.dfy`).
- **Asynchronous logging.** The ring buffer and the locked queue (`CircularQ.dfy`,
  `QueueSpec.dfy`) and the thread pool with its shutdown (`ThreadPool.dfy`).
- **Rotating log files.** File names (`FileNames.dfy`), what rotation keeps
  (`LogRotation.dfy`) and the sink over a directory (`RotatingSink.dfy`).
- **Format strings and truncated output.** The two scanners (`FormatScanner.dfy`),
  the language they accept, written out (`FormatLanguage.dfy`),
  and the two cut-off buffers (`TruncatingBuffer.dfy`).
- **ISO 8601 week dates** (`IsoWeek.dfy`).

`dafny verify dfyconfig.toml` checks everything. Code that changes objects in
place is modelled by classes and methods; the growable `basic_memory_buffer` is a
field of type `seq`. Casts to narrower words are written `% 2^32` or `% 2^64`;
a variable of type `U64` or `Bigit` is a machine word, so giving it a value
that does not fit would be a verification error.

## Where the code and its promise part

Some routines are right only under conditions the code does not state. Each is
modelled as it is, and its contract says exactly when it is right.

- `subtract_aligned` never advances its index in the final borrow loop. The
  result is too large by (2^32 - 1) * 2^(32k) exactly when the borrow meets a
  zero bigit (`StuckBorrow`; example in `StuckBorrowExample`). `OneExtraBigit`
  shows that a quotient below 2^32 excludes this, and so `divmod_assign` is safe.
- `compare` breaks ties by stored length, so it is inexact exactly when one
  operand is the other written with extra low zero bigits (`ShiftedCopy`;
  `ShiftedCopyExample`). `divmod_assign` is right if and only if the divisor is not
  such a copy of the dividend, and `NoLongerCopy` shows Dragon4 never meets one.
- `iso_year_weeks` uses truncating division. Up to year 0 it always answers 52,
  which is right exactly when the year neither starts nor ends on a Thursday
  (`YearMinusTwo` is a year where it is not). Week dates are right exactly when they
  are not `Miscounted`, which can only happen up to year 0 (`DateInYearMinusTwo`).
- `format_float` with precision 0 in a format that is not fixed prints one digit on
  the Grisu path but none on the Dragon4 path. The result is the value rounded at its
  first digit if and only if that digit is safe (`FirstDigitIsSafe`): what follows it
  in the scaled value is clear of half a unit by more than the error
  (`ClearOfHalf`), or the value is at least 9.5 units and so rounds up to 10
  of them. Otherwise it is rounded one place earlier: 2.5 comes out as `0` with
  exponent 1, and with zeros stripped as no digits with exponent 2
  (`HalfWayAtPrecisionZero`). `PrintScaled` and `FormatFloat` state this.
- `parse_nonnegative_int` counts leading zeros as digits and refuses a run of more
  than ten digits whatever its value (`ElevenDigits`).
- The pointer form of `iterator_buffer` drops what is pushed after an early
  `out()`, although there is room for it (`EarlyOut`).
- A pool whose queue has capacity 0 cannot be shut down (`NoRoomNoShutdown`).

## Model

| member | source | states |
|---|---|---|
| Digits.NumBound | include/spdlog/fmt/bundled/format-inl.h:473-475 | A scaled bigit sequence is below 2^(32 * number of bigits), and reaches the weight of its top bigit when that is not zero |
| Bigints.Bigint.AssignU64 | include/spdlog/fmt/bundled/format-inl.h:463-471 | The value becomes n, with exponent 0 and no leading zero bigit (a single zero bigit for 0) |
| Bigints.Bigint.Multiply32 | include/spdlog/fmt/bundled/format-inl.h:417-426 | The value is multiplied exactly; no leading zero appears |
| Bigints.Bigint.Multiply64 | include/spdlog/fmt/bundled/format-inl.h:428-443 | The value is multiplied exactly by a 64-bit factor; no intermediate result and no carry leaves 64 bits |
| Bigints.MultiplyBigit | include/spdlog/fmt/bundled/format-inl.h:434-439 | One step of that product: low bigit plus 2^32 times the new carry is bigit times factor plus the old carry, both fitting 64 bits |
| Bigints.Bigint.ShiftLeft | include/spdlog/fmt/bundled/format-inl.h:477-490 | The value is multiplied by 2^shift, the exponent grows by shift / 32 |
| Alignment.ShiftParts | include/spdlog/fmt/bundled/format-inl.h:477-490 | Scaling by 2^(shift mod 32) and moving up shift / 32 bigits is multiplying by 2^shift |
| Bigints.Bigint.SubtractBits | include/spdlog/fmt/bundled/format-inl.h:393-397 | The wrapped 64-bit difference leaves the right bigit, and its top bit is the borrow |
| Bigints.Bigint.RemoveLeadingZeros | include/spdlog/fmt/bundled/format-inl.h:399-403 | The value is kept and the top bigit is not zero, unless the number is a single zero bigit |
| Bigints.Bigint.SubtractAligned | include/spdlog/fmt/bundled/format-inl.h:405-415 | The exact difference, plus (2^32 - 1) * 2^(32k) precisely on the StuckBorrow inputs; the borrow loop, whose index stands still, ends after at most two rounds |
| Alignment.BorrowMeaning | include/spdlog/fmt/bundled/format-inl.h:409-413 | After the loop over the subtrahend the borrow is 1 exactly when the part facing it was smaller |
| Alignment.StuckBorrowExample | include/spdlog/fmt/bundled/format-inl.h:413 | 2^64 - 1 is an input on which the borrow loop goes wrong, and the error is never zero |
| Comparison.OneExtraBigit | include/spdlog/fmt/bundled/format-inl.h:405-415 | A number below 2^32 times the divisor has at most one bigit more, so no borrow gets stuck |
| Bigints.Bigint.Square | include/spdlog/fmt/bundled/format-inl.h:558-585 | The value becomes its exact square and the exponent doubles, for any length whose double is an int |
| Columns.SumIsProduct | include/spdlog/fmt/bundled/format-inl.h:565-582 | All columns of cross products, each at its weight, add up to the product |
| Columns.TopColumn | include/spdlog/fmt/bundled/format-inl.h:575-582 | In the top half the indices the loop visits hold all non-zero cross products of the column |
| Bigints.SumColumn | include/spdlog/fmt/bundled/format-inl.h:570-579 | The accumulator grows by exactly the cross products in the index range, within 96 bits |
| Bigints.Accumulator.Add | include/spdlog/fmt/bundled/format-inl.h:360-363 | The two words together hold the sum modulo 2^128; the carry is read off the wrapped low word |
| Bigints.Accumulator.ShiftRight32 | include/spdlog/fmt/bundled/format-inl.h:364-369 | The two words together are divided by 2^32, rounding down |
| Bigints.Bigint.Align | include/spdlog/fmt/bundled/format-inl.h:587-598 | The value is kept while the exponent drops to the other's if it was larger |
| Bigints.Compare | include/spdlog/fmt/bundled/format-inl.h:498-512 | The sign of the difference, except that a ShiftedCopy counts as larger and what it copies as smaller |
| Comparison.CopiesAreEqual | include/spdlog/fmt/bundled/format-inl.h:510-511 | The operands compare() calls different although they are equal: the longer one has the smaller exponent |
| Comparison.ShiftedCopyExample | include/spdlog/fmt/bundled/format-inl.h:510-511 | 2^32 in its two stored forms is such a pair |
| Bigints.AddCompare | include/spdlog/fmt/bundled/format-inl.h:515-536 | The sign of lhs1 + lhs2 - rhs for any exponents |
| Comparison.PrefixesDecide | include/spdlog/fmt/bundled/format-inl.h:526-535 | Once the prefix difference leaves {0, 1} the unread low bigits cannot change the sign: both early exits are sound |
| Comparison.SumIsShorter | include/spdlog/fmt/bundled/format-inl.h:520-521 | A sum of numbers more than one bigit shorter stays below |
| Bigints.Bigint.AssignPow10 | include/spdlog/fmt/bundled/format-inl.h:539-556 | The value becomes 10^e, with exponent e / 32 |
| Comparison.UpperStep | include/spdlog/fmt/bundled/format-inl.h:550-554 | Reading one more bit of the exponent doubles what was read and adds the bit |
| Bigints.Bigint.DivmodAssign | include/spdlog/fmt/bundled/format-inl.h:602-613 | old = q * divisor + rest always; rest < divisor if and only if the divisor is no ShiftedCopy of the dividend |
| Dragon.ScaleFraction | include/spdlog/fmt/bundled/format-inl.h:2237-2272 | All three branches build numerator / denominator = value / 10^exp10 exactly |
| Dragon.PartialStep | include/spdlog/fmt/bundled/format-inl.h:2312-2316 | One digit step keeps: digits so far, scaled, plus the numerator left is the scaled value; the digit is below 10 |
| Dragon.NoLongerCopy | include/spdlog/fmt/bundled/format-inl.h:2245-2262 | Before alignment a numerator with the larger exponent never equals the denominator, so the comparison in each digit step is exact |
| Dragon.EmitDigits | include/spdlog/fmt/bundled/format-inl.h:2312-2316 | All digits but the last, with the partial-sum invariant |
| Dragon.CarryOver | include/spdlog/fmt/bundled/format-inl.h:2320-2332 | Incrementing a final 9 propagates the carry; 9...9 becomes 10...0 with the exponent one larger |
| Dragon.RoundLast | include/spdlog/fmt/bundled/format-inl.h:2317-2336 | The finished digits denote the fraction rounded half to even |
| Dragon.FormatDragon | include/spdlog/fmt/bundled/format-inl.h:2225-2336 | For every value below 10^(exp10 + 1) the digits and the final exp10 denote the value rounded half to even at the last place, including the carry into a new digit and the case of no digits |
| Rounding.HalfEvenUnique | include/spdlog/fmt/bundled/format-inl.h:2319 | Rounding half to even singles out one integer |
| Rounding.DecimalCarry | include/spdlog/fmt/bundled/format-inl.h:2324-2327 | One step of carry propagation keeps the number the digits read as |
| Grisu.GetRoundDirection | include/spdlog/fmt/bundled/format-inl.h:618-638 | Down exactly if 2 * (remainder + error) <= divisor, up exactly if not that and 2 * (remainder - error) >= divisor, without overflow |
| Grisu.GenDigitsHandler.OnDigit | include/spdlog/fmt/bundled/format-inl.h:654-684 | `more` exactly while digits are missing and the error is below the remainder; `error` exactly when the remainder is within the error or the last digit is not SafeToRound; otherwise `done`, and then the digits read as the rounded number, as many as asked for unless a carry went through all of them |
| Grisu.GenDigitsHandler.IncrementLast | include/spdlog/fmt/bundled/format-inl.h:672-683 | The number read grows by one, through every carry, with an extra digit in fixed mode or a larger exponent otherwise |
| Grisu.NearestByEnds | include/spdlog/fmt/bundled/format-inl.h:686-689 | A decimal within half a unit of both ends of the error interval is within half a unit of every real in it |
| Grisu.DecidableIff | include/spdlog/fmt/bundled/format-inl.h:618-638 | A decimal nearest to everything within one unit exists at a place if and only if the remainder there is clear of half a unit by more than the error |
| Grisu.DivisorFits | include/spdlog/fmt/bundled/format-inl.h:702-769 | 10^exp shifted to the scaled value's unit fits 64 bits for every digit position |
| Grisu.IntegralDigits | include/spdlog/fmt/bundled/format-inl.h:725-775 | The digits of the integral part: digits * divisor + remainder is the scaled value at each step |
| Grisu.FractionalDigits | include/spdlog/fmt/bundled/format-inl.h:777-785 | The same for the fractional part; no product leaves 64 bits, and it ends because the digits run up to the precision |
| Grisu.LeadingZerosOnly | include/spdlog/fmt/bundled/format-inl.h:714-723 | With no digit in the precision: zero is nearest, or the one digit 0 or 1 is |
| Grisu.GrisuGenDigits | include/spdlog/fmt/bundled/format-inl.h:691-786 | `done` means a nearest decimal to every real within the error, with the number of digits asked for or a carry through all of them; on `error` exp plus the digits emitted is the number of integral digits, and it is given only if no decimal at that place is nearest, or after the point if it is Hopeless; throws exactly when the adjusted precision exceeds an int |
| FloatFormat.FormatFloat | include/spdlog/fmt/bundled/format-inl.h:2340-2414 | For every double and precision the digits and the exponent denote the value rounded half to even, whichever of Grisu and Dragon4 produced them: in the fixed format at that many places after the point, otherwise at that many digits; with precision 0 in a format that is not fixed, at the first digit if and only if FirstDigitIsSafe. The digits are LaidOut: exactly those one path generates, up to the place rounded to, without zeros at their end exactly if the format is not fixed and no point is asked for. Throws exactly in the fixed format when precision plus magnitude exceeds an int |
| FloatFormat.PrintScaled | include/spdlog/fmt/bundled/format-inl.h:2384-2403 | The same from the scaled value, up to 767 digits on the Dragon4 path; the number of digits and the exponent are those of Generated for the path taken; with precision 0 and no fixed format the result is right at the first digit if and only if FirstDigitIsSafe; with precision 0 or 1 Grisu succeeds if and only if some digit is nearest to everything within the error |
| FloatFormat.RightAtFirstDigit | include/spdlog/fmt/bundled/format-inl.h:2305-2309 | A result with no digits, rounded one place before the first digit, is right at the first digit exactly from 9.5 of its units on |
| FloatFormat.FinerPlace | include/spdlog/fmt/bundled/format-inl.h:2398-2401 | Cutting the precision at 767 digits changes nothing: what is right at the 767th digit is right at every later place |
| DoubleDigits.LastDigit | include/spdlog/fmt/bundled/format-inl.h:2398-2400 | Every double is a whole number of units of its 767th significant digit |
| DoubleDigits.FractionFits | include/spdlog/fmt/bundled/format-inl.h:2398-2400 | A double with bits after the point has few enough digits before it, down to the smallest exponent (5^307 is at most 2^713) |
| Scaling.NearestIsHalfEven | include/spdlog/fmt/bundled/format-inl.h:2386-2388 | What Grisu accepts as nearest within its error is the exact value rounded half to even: there is no tie |
| Scaling.RestartFits | include/spdlog/fmt/bundled/format-inl.h:2389-2391 | After a Grisu error the exponent handed to Dragon4 is never too small: the value is below 10^(exp10 + 1), and at least 10^exp10 up to one part in 2^32 |
| Scaling.ProductIsScaled | include/spdlog/fmt/bundled/format-inl.h:2378-2383 | The normalized value times a cached power accurate to half a unit is less than one unit off: the error of 1 that Grisu is told |
| Scaling.Normalize | include/spdlog/fmt/bundled/format-inl.h:288-302 | The result is Normalized: the loop up to bit 52 and the shift by 11 bring the top bit to bit 63 |
| Scaling.NormalizedBy | include/spdlog/fmt/bundled/format-inl.h:288-302 | Normalized keeps the number: the significand is multiplied by a power of two, of 11 to 63 bits for a double, and the exponent lowered as much |
| Scaling.ScaleByPower | include/spdlog/fmt/bundled/format-inl.h:2378-2383 | The scaled value has 32 to 60 fractional bits, an integral part that is not zero, and is off by less than one unit |
| FloatFormat.StripZeros | include/spdlog/fmt/bundled/format-inl.h:2404-2412 | Zeros at the end, all of them and nothing else, move into the exponent, and the number denoted stays |
| FloatFormat.HalfWayAtPrecisionZero | include/spdlog/fmt/bundled/format-inl.h:2389-2413 | 2.5 with precision 0 in the general format comes out as 0 with exponent 1, and as no digits with exponent 2 once zeros are stripped |
| WideMultiply.Multiply | include/spdlog/fmt/bundled/format-inl.h:306-322 | floor((x * y + 2^63) / 2^64) from 32-bit halves, every intermediate sum within 64 bits |
| WideMultiply.MultiplyInt128 | include/spdlog/fmt/bundled/format-inl.h:308-311 | The 128-bit form computes the same |
| WideMultiply.U128.Add | include/spdlog/fmt/bundled/format-inl.h:819-833 | Adding a word to a 128-bit pair is addition modulo 2^128 |
| WideMultiply.Umul128 | include/spdlog/fmt/bundled/format-inl.h:838-864 | The full 128-bit product |
| WideMultiply.Umul192Upper64 | include/spdlog/fmt/bundled/format-inl.h:878-884 | floor(x * y / 2^128) |
| WideMultiply.Umul192Middle64 | include/spdlog/fmt/bundled/format-inl.h:892-898 | floor(x * y / 2^64) mod 2^64, although both terms wrap |
| Divisibility.InverseTest | include/spdlog/fmt/bundled/format-inl.h:955-972 | x * inv mod w is at most floor((w - 1) / d) if and only if d divides x, and then it is the quotient |
| Divisibility.Rows32AreValid | include/spdlog/fmt/bundled/format-inl.h:964-970 | Every row of the 32-bit table holds the inverse of its power of five and the largest quotient |
| Divisibility.Rows64AreValid | include/spdlog/fmt/bundled/format-inl.h:975-999 | The same for the 64-bit table |
| Divisibility.DivisibleByPowerOf5_32 | include/spdlog/fmt/bundled/format-inl.h:962-972 | True exactly for the multiples of 5^exp |
| Divisibility.DivisibleByPowerOf5_64 | include/spdlog/fmt/bundled/format-inl.h:973-1001 | True exactly for the multiples of 5^exp |
| TrailingZeros.RemoveTrailingZeros32 | include/spdlog/fmt/bundled/format-inl.h:1927-1953 | n = result * 10^s, and the result is no multiple of 10 unless s is the cap |
| TrailingZeros.RemoveTrailingZeros64 | include/spdlog/fmt/bundled/format-inl.h:1955-2038 | The same through the 10^8 shortcut and the remainder path |
| TrailingZeros.StripRemainder | include/spdlog/fmt/bundled/format-inl.h:1992-2038 | The path through n mod 10^8, where the 32-bit product may wrap without harm |
| TrailingZeros.StripQuotient | include/spdlog/fmt/bundled/format-inl.h:1977-1990 | The path through n / 10^8, whose quotient fits 32 bits |
| TrailingZeros.OddFactorKeepsTwos | include/spdlog/fmt/bundled/format-inl.h:1942-1951 | Dividing out an odd factor keeps every factor of two, so the final shift is exact |
| CircularQueues.CircularQ.constructor | include/spdlog/details/circular_q.h:27-30 | An empty queue with room for the given number of items |
| CircularQueues.CircularQ.PushBack | include/spdlog/details/circular_q.h:48-62 | Appends; when full, the oldest item leaves and the overrun counter grows by one; a disabled queue stays empty |
| CircularQueues.CircularQ.PopFront | include/spdlog/details/circular_q.h:97-102 | Drops the oldest item |
| CircularQueues.CircularQ.Size | include/spdlog/details/circular_q.h:76-87 | The number of items, however the indices wrap |
| CircularQueues.CircularQ.At | include/spdlog/details/circular_q.h:89-95 | The i-th item, oldest first |
| CircularQueues.CircularQ.Full | include/spdlog/details/circular_q.h:109-117 | True exactly when the capacity is used up |
| CircularQueues.CircularQ.CopyMoveable | include/spdlog/details/circular_q.h:125-138 | The items move over unchanged and the other queue is left disabled and empty; so is a queue moved onto itself |
| CircularQueues.MpmcBlockingQueue.Enqueue | include/spdlog/details/mpmc_blocking_q.h:31-40 | Blocks exactly when the queue is full, and otherwise appends without overrunning; it is the operation Enqueue of every history with this queue, and blocks exactly when that history does not grow |
| CircularQueues.MpmcBlockingQueue.EnqueueNowait | include/spdlog/details/mpmc_blocking_q.h:42-50 | Appends at once, overrunning the oldest item if there is no room; it is the operation EnqueueNowait of every history with this queue |
| CircularQueues.MpmcBlockingQueue.DequeueFor | include/spdlog/details/mpmc_blocking_q.h:52-67 | Takes the oldest item, or reports a time-out exactly when there is none; it is the operation Dequeue of every history with this queue, which records the item popped as delivered |
| QueueSpec.RunConserves | include/spdlog/details/mpmc_blocking_q.h:31-67 | Over any run, items removed in order followed by items queued are the items enqueued, and the counter is the number of removals that were not deliveries |
| QueueSpec.BlockingIsLossless | include/spdlog/details/mpmc_blocking_q.h:31-40 | With blocking enqueues only, the counter stays 0 and what is delivered is a prefix of what was enqueued |
| QueueSpec.FilledAndDrained | include/spdlog/details/mpmc_blocking_q.h:31-67 | Items within the capacity, enqueued and then dequeued, are delivered, exactly they and in order, and the queue ends empty |
| QueueSpec.FillsUp | include/spdlog/details/mpmc_blocking_q.h:31-40 | From any history, blocking enqueues within the room there is all get in, in order |
| QueueSpec.Drains | include/spdlog/details/mpmc_blocking_q.h:52-67 | From any history, n dequeues deliver the n oldest items in order |
| QueueSpec.NewestStay | include/spdlog/details/mpmc_blocking_q.h:42-50 | After enqueues without waiting the queue holds the newest items, and the counter says how many older ones went |
| ThreadPools.CreateInv | include/spdlog/details/thread_pool-inl.h:16-33 | Thread counts of 0 and above 1000 are rejected; every other pool starts in the invariant |
| ThreadPools.StepKeepsInv | include/spdlog/details/thread_pool-inl.h:83-133 | Every step of every thread keeps: one terminate message queued or unposted per live worker, terminate messages last, each message in exactly one place |
| ThreadPools.TakenInOrder | include/spdlog/details/thread_pool-inl.h:83-107 | On every run, the messages that left the queue followed by those in it are the posted ones, in order; without overruns, the messages taken by workers followed by those in the queue are |
| ThreadPools.OneWorkerInOrder | include/spdlog/details/thread_pool-inl.h:77-133 | A pool of one thread works in order: what it has processed, has in hand and still has queued is the sequence posted, if nothing is overrun |
| ThreadPools.ServeAll | include/spdlog/details/thread_pool-inl.h:83-133 | A pool with a thread and room for one message can post and process any messages one after the other |
| ThreadPools.JoinedMeansDone | include/spdlog/details/thread_pool-inl.h:44-60 | When the joins return after any run: queue empty, one terminate message taken by each worker, every posted message processed once or overrun before |
| ThreadPools.ShutdownIsClosed | include/spdlog/details/thread_pool-inl.h:48-51 | Given that callers post nothing once the destructor has started, which is an assumption about them, only terminate messages enter the queue from then on and nothing is overrun |
| ThreadPools.QueuedIsProcessed | include/spdlog/details/thread_pool-inl.h:44-60 | Every message queued or in hand at any point of the shutdown has been processed by the end of the joins, exactly as often as it was there |
| ThreadPools.ProgressIff | include/spdlog/details/thread_pool-inl.h:48-56 | While a worker is left, some step other than a time-out is possible exactly if the capacity is at least 1 or a worker has a message in hand |
| ThreadPools.RankDecreases | include/spdlog/details/thread_pool-inl.h:48-56 | Every step other than a time-out takes one unit of the work left |
| ThreadPools.ShutdownCompletes | include/spdlog/details/thread_pool-inl.h:44-60 | With capacity at least 1, shutdown can be completed from every reachable state within that many steps |
| ThreadPools.ShutdownIsBounded | include/spdlog/details/thread_pool-inl.h:44-60 | No schedule can take more steps than that, time-outs aside |
| ThreadPools.NoRoomNoShutdown | include/spdlog/details/thread_pool-inl.h:48-51 | With capacity 0 no run ends the shutdown |
| FileNames.SplitByExtension | include/spdlog/details/file_helper-inl.h:137-169 | The parts make up the name, and there is an extension exactly when a dot that is neither first, last nor after a separator is followed by no dot or separator |
| Rounding.ToStringReads | include/spdlog/sinks/rotating_file_sink-inl.h:64 | The decimal notation of an index reads as the index and has no leading zero |
| FileNames.DistinctNames | include/spdlog/sinks/rotating_file_sink-inl.h:52-65 | Different indices give different file names |
| FileNames.IndexInName | include/spdlog/sinks/rotating_file_sink-inl.h:52-65 | A rotated name keeps the extension; the rest is the base of the name, a dot and a decimal without leading zeros that reads as the index |
| RotatingSinks.FileHelper.Open | include/spdlog/details/file_helper-inl.h:32-74 | The file is open, truncated or created as asked, and no other file changes |
| RotatingSinks.FileHelper.Reopen | include/spdlog/details/file_helper-inl.h:76-83 | Fails exactly if nothing was opened before |
| RotatingSinks.RotatingSink.RenameFile | include/spdlog/sinks/rotating_file_sink-inl.h:141-149 | The source's content replaces the target's and the source is gone |
| RotatingSinks.RotatingSink.Rotate | include/spdlog/sinks/rotating_file_sink-inl.h:103-139 | In any directory: each index gets the content of the one below, the highest is overwritten only if there is something to move, index 0 is empty, no other file changes |
| RotatingSinks.MidwayStep | include/spdlog/sinks/rotating_file_sink-inl.h:115-137 | One turn of the downward loop: what is above the index is done, what is below untouched |
| RotatingSinks.RotatingSink.SinkIt | include/spdlog/sinks/rotating_file_sink-inl.h:74-95 | The files hold what LogStep makes of their messages, the recorded size is the real one, and no foreign file changes |
| RotatingSinks.OpenSink | include/spdlog/sinks/rotating_file_sink-inl.h:26-50 | A zero size limit and more than 200000 files are rejected; otherwise the sink starts with what the directory held; if rotation is asked for the current file is empty and what it held, if anything, is at index 1 |
| LogRotation.RunKeepsSuffix | include/spdlog/sinks/rotating_file_sink-inl.h:74-139 | Over any run the files from oldest to newest hold a suffix, cut between messages, of what was there followed by everything logged |
| LogRotation.RunKeepsSizes | include/spdlog/sinks/rotating_file_sink-inl.h:78-95 | Over any run at most maxFiles + 1 files, each within the size limit unless it holds one larger message, if that was so before |
| LogRotation.RunDropsNothing | include/spdlog/sinks/rotating_file_sink-inl.h:109-139 | Until every index is taken, a run keeps all that was there and was logged |
| LogRotation.RunEndsInLast | include/spdlog/sinks/rotating_file_sink-inl.h:74-95 | After a run the current file ends in the last message |
| LogRotation.RunKeepsPacked | include/spdlog/sinks/rotating_file_sink-inl.h:78-95 | No file is closed early: what it holds and the first message of the next one exceed the limit |
| LogRotation.RunKeepsRotated | include/spdlog/sinks/rotating_file_sink-inl.h:83-91 | An empty file is never rotated away: over any run every file but the current one is non-empty, if that was so before |
| RotatingSinks.LogAll | include/spdlog/sinks/rotating_file_sink-inl.h:26-139 | A whole run, from opening the sink on any directory with contiguous files (none, if it is fresh): indices stay contiguous from 0; the contents read in order are the bytes of the last messages, of all of them unless every index is taken; the current file ends in the last message; no rotated file is empty, if none was; sizes are kept; two neighbouring files together exceed the limit, if that was so and no rotation is asked for on opening; no foreign file changes |
| RotatingSinks.FilesHoldLastMessages | include/spdlog/sinks/rotating_file_sink-inl.h:74-139 | Files that hold the outcome of a run of LogStep, read in order, give the bytes of a suffix of all messages, cut between messages |
| FormatScanner.ParseNonnegativeInt | include/spdlog/fmt/bundled/core.h:2273-2296 | The number if it has at most ten digits and fits an int, else the error value, although the accumulator wraps |
| FormatScanner.NoLeadingZero | include/spdlog/fmt/bundled/core.h:2286-2295 | Without a leading zero, being too long is the same as not fitting |
| FormatScanner.ElevenDigits | include/spdlog/fmt/bundled/core.h:2286-2295 | An eleven-digit way to write 1, which is refused |
| FormatScanner.ParseArgId | include/spdlog/fmt/bundled/core.h:2343-2380 | An argument id is nothing, an index without leading zeros, or a name |
| FormatScanner.ParseReplacementField | include/spdlog/fmt/bundled/core.h:2571-2609 | Produces the field that opens at the brace, or fails when there is none |
| FormatScanner.ScanSimple | include/spdlog/fmt/bundled/core.h:2617-2635 | The loop for short strings produces the meaning of the string |
| FormatScanner.Write | include/spdlog/fmt/bundled/core.h:2636-2651 | Text up to the next opening brace, with doubled closing braces, contributes its part of the meaning |
| FormatScanner.ScanTwoPass | include/spdlog/fmt/bundled/core.h:2652-2661 | The two-pass form for long strings produces the same meaning |
| FormatScanner.ParseFormatString | include/spdlog/fmt/bundled/core.h:2611-2662 | The outcome is the meaning of the string, whichever form its length selects |
| FormatLanguage.AcceptedIsRendered | include/spdlog/fmt/bundled/core.h:2571-2662 | A string is accepted with these items if and only if it is pieces written one after the other (text with doubled braces; braces around nothing, a decimal or a name, with or without a colon and specs) that the handler takes and that mean these items |
| FormatLanguage.RenderedMeans | include/spdlog/fmt/bundled/core.h:2571-2662 | Every sequence of pieces, written out, parses to the items it means: written argument numbers, names and specs come out as they were put in |
| FormatLanguage.ParsedIsRendered | include/spdlog/fmt/bundled/core.h:2571-2662 | Every string that is accepted is such a sequence of pieces |
| FormatLanguage.IdReads | include/spdlog/fmt/bundled/core.h:2343-2380 | A written argument id is read back: nothing, a number (the largest int stands for all beyond it) or a name |
| FormatScanner.DoubledMeansItself | include/spdlog/fmt/bundled/core.h:2611-2662 | A text with its braces doubled parses to the text and no field |
| TruncatingBuffer.IteratorBuffer.Append | include/spdlog/fmt/bundled/format.h:628-640 | Appends everything, over any number of flushes |
| TruncatingBuffer.IteratorBuffer.Out | include/spdlog/fmt/bundled/core.h:887-918 | Exactly the first n elements pushed have been delivered |
| TruncatingBuffer.PointerBuffer.Append | include/spdlog/fmt/bundled/format.h:628-640 | Appends everything and changes nothing in the caller's memory beyond the first n elements of the output, even if the memory is shorter than n |
| TruncatingBuffer.PointerBuffer.Out | include/spdlog/fmt/bundled/core.h:920-964 | The memory holds the first n elements if and only if no earlier out() cut the output short |
| TruncatingBuffer.FormatToN | include/spdlog/fmt/bundled/core.h:3158-3166 | The first n elements are delivered, the rest of the memory is untouched and the total is not truncated; the memory only needs room for what is delivered |
| TruncatingBuffer.EarlyOut | include/spdlog/fmt/bundled/core.h:934-941 | Reading out() between two parts: everything is counted, but the second part is lost although there is room for it, exactly if the first is shorter than n and the second is not empty |
| IsoWeek.YearsAreAdjacent | include/spdlog/fmt/bundled/chrono.h:1014-1026 | The closed form for the days before a year is the Gregorian calendar |
| IsoWeek.YearWeeksAreThursdays | include/spdlog/fmt/bundled/chrono.h:1016-1026 | From year 1 on the number of weeks is the number of Thursdays |
| IsoWeek.YearWeeksBeforeYearOne | include/spdlog/fmt/bundled/chrono.h:1016-1026 | Up to year 0 the answer is 52, right exactly when the year neither starts nor ends on a Thursday |
| IsoWeek.YearMinusTwo | include/spdlog/fmt/bundled/chrono.h:1016-1026 | A year with 53 Thursdays for which the answer is 52 |
| IsoWeek.WeekNumber | include/spdlog/fmt/bundled/chrono.h:1027-1030 | The raw week number counts the Thursdays from the start of the year to the Thursday at hand |
| IsoWeek.WeekOfThursday | include/spdlog/fmt/bundled/chrono.h:1031-1043 | For every consistent date of any year: the week year is the year of the Thursday in its week and the week number that Thursday's ordinal, if and only if the date is not Miscounted (year 0 or before, and the week belongs to a year that starts or ends on a Thursday) |
| IsoWeek.DateInYearMinusTwo | include/spdlog/fmt/bundled/chrono.h:1031-1043 | A date in the 53rd week of year -2 that is put into week 1 of year -1 |

## Left out

- Dragon.FormatDragon: models the calls with a digit count; the shortest-output branch (negative count, with its lower and upper bounds) is not taken at run time, where Dragonbox does that job. The significand is below 2^62, so that the shift by one or two fits 64 bits; a double's is below 2^53.
- Bigints.Bigint.AssignPow10: exponents below 2^30, above which the int bit mask would overflow; the exponent of a bigint itself is unbounded, and the limit of 32 inline bigits asserted by the destructor is not modelled.
- Grisu.GrisuGenDigits: the error is 1, which the integral part asserts and which is all its caller passes.
- FloatFormat.FormatFloat: get_cached_power is a parameter that keeps what its comment says (an exponent in a range of 28, a power rounded to 64 bits); the entries of its table are not checked. A negative precision goes to Dragonbox or to the shortest-output branch, and constant evaluation always to Dragon4; neither is modelled.
- TrailingZeros.RemoveTrailingZeros64: the remainder path, unrolled seven times in the source, is a loop over the seven steps; the cap of 16 is a parameter that is at least 8.
- CircularQueues.CircularQ.PushBack: sizes that wrap size_t.
- ThreadPools.ShutdownIsClosed: a producer that posts while the destructor runs; the source does not prevent it, and such a message may stay queued behind the terminate messages.
- ThreadPools.StepKeepsInv: the pool is a state machine on values, not a class, because its threads interleave; condition variables and memory ordering are replaced by guarded atomic steps, and exceptions from sinks are not modelled.
- RotatingSinks.RotatingSink.Rotate: file operations succeed; the retry after a failed rename and the truncation that follows it depend on the operating system.
- RotatingSinks.FileHelper.Open: event handlers, creation of folders and the retry loop of open.
- FormatScanner.ParseReplacementField: what format specs contain; the handler decides where they end, and may refuse an id or specs depending on all output so far.
- The Dragonbox algorithm itself and its caches; the bounded logarithm formulas, whose domains are small.
- snprintf fallbacks, locales, UTF-16, colours and the other sinks: calls into foreign code.
- The server's own handlers, sockets and JSON: little logic of their own.
