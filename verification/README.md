# IronTraffic: a verified model

IronTraffic is a proxy with its own benchmark harness. This project models the parts of it whose
correctness rests on exact arithmetic or on interleavings, and proves what they promise for every
input, every run and every interleaving. Code that computes a value is a function with lemmas; code
that updates fields or advances a cursor is a class or a loop, proved to compute such a function.

| files | component |
|---|---|
| `Schedule.dfy` | the open-loop request schedule: due times, catch-up with a burst cap, worker splitting |
| `BufferPool.dfy`, `BodyInspection.dfy` | the process-wide buffer budget as a lock-free protocol, and the merging of body-inspection declarations |
| `FrameBudget.dfy` | the per-connection token bucket over a wrapping millisecond clock |
| `Calendar.dfy`, `StampJson.dfy`, `StampGrammar.dfy`, `StampParser.dfy`, `StampPrinter.dfy`, `CappedDrain.dfy` | provenance: civil dates, the stamp parser, the two version printers it reads, and the capped drain of a child's output |
| `CorpusGrammar.dfy`, `CorpusSyntax.dfy`, `CorpusParser.dfy`, `CorpusExpansion.dfy`, `RoutePattern.dfy`, `RouteTable.dfy`, `CorpusFile.dfy`, `PathCorpus.dfy`, `PathSampling.dfy` | the corpus expressions, their parser and sampler, and the route tables they must hit |
| `Recorders.dfy`, `ProbeLoop.dfy`, `ProbeSamples.dfy`, `ResetHandshake.dfy` | latency recorders, the probe's loop, and its reset handshake with other threads |
| `NestingScan.dfy`, `Aggregate.dfy` | the configuration nesting scan, and the published order statistics |
| `Arith.dfy`, `Divisors.dfy`, `Decimal.dfy`, `Wrappers.dfy` | division, multiplication, common divisors, decimal rendering and optional values used by the others |

`dafny verify dfyconfig.toml` checks everything.

Threads are modelled as steps on shared words, one atomic access at a time, in any order. Clock
readings, exchange outcomes, loads, spurious failures, file contents and random draws are arbitrary
inputs. 64-bit, 128-bit and 32-bit widths, saturation, wrap-around and truncating division are
written out where the code relies on them. In the text of a route pattern a placeholder in braces
stands for one non-empty path segment, a group in parentheses for one of its words, and every other
character for itself.

## Where the code and its documentation differ

The model follows the code. Each difference is shown by a concrete input and by the exact condition
under which the documented claim holds.

- The last schedule index is documented as the largest that fits; it can be one short
  (`MaxIndexSharp`, `MaxIndexCanBeShort`).
- Interleaved workers are documented to hit the global due times; they can be one nanosecond early
  (`SplitIsOnTime`, `InterleavingCanBeEarly`).
- The all-ones wake value is documented to mean exhaustion; a last due time at that instant, or a
  capped call at it, gives the same value with requests left (`SentinelMeansExhausted`,
  `SentinelCanBeLive`).
- A refused buffer request is documented to have lost 64 races; each spurious swap failure saves one
  of them (`RacesBehindARefusal`, `RefusedAlone`).
- Merging declarations is documented as commutative with an identity; between declarations that do
  not inspect, an unused field can differ (`CombineCommutes`, `NoneIsIdentity`).
- The refill remainder is documented to accumulate; it does so only for rates that are a multiple
  of 1000 per second (`RemainderKept`). Between clamps more than half is delivered, unless the rate
  is so large that saturation takes more than half (`HalfCreditReach`).
- The drain is documented to overshoot by one read; n threads can overshoot by n reads
  (`OvershootIsExact`).
- The stamp parser accepts a plus sign in a four-digit escape and refuses surrogate pairs
  (`UnicodeEscapes`, `LiteralAccepted`, `SurrogatePairRefused`, `PlusSignIsAccepted`).
- A reset is documented to return what it discarded; with two or more callers it can report another
  call's number, and it is right whenever calls do not overlap (`CountsAreExactFor`,
  `SerialCallsAreExact`).
- Corpus expressions are documented to name a route of the generated table at every power of ten;
  above a million routes there is no table (`WidthsWithATable`, `ExpressionWithoutTable`).

## Model

| member | source | states |
|---|---|---|
| `OpenLoop.MaxIndexValue` | crates/irontraffic-bench/src/schedule.rs:166-183 | the saturating 128-bit computation of the last index is the plain quotient, and no intermediate overflows |
| `OpenLoop.MaxIndexSharp` | crates/irontraffic-bench/src/schedule.rs:151-183 | the computed last index fits, the index two above never fits, and the index one above fits exactly when the remainder of the division leaves room for it; so "the largest index that fits" holds under that exact condition |
| `OpenLoop.MaxIndexCanBeShort` | crates/irontraffic-bench/src/schedule.rs:151-183 | a concrete origin and rate where the computed last index is one short |
| `OpenLoop.DueFits` | crates/irontraffic-bench/src/schedule.rs:233-267 | every index up to the last has a due time inside 64 bits, at or after the origin, with no 128-bit overflow on the way |
| `OpenLoop.DueSpacing` | crates/irontraffic-bench/src/schedule.rs:233-251 | consecutive due times are at least 20 ns apart at every accepted rate |
| `OpenLoop.DueIncreasing` | crates/irontraffic-bench/src/schedule.rs:233-251 | due times strictly increase over any two indices |
| `OpenLoop.DueByIndex` | crates/irontraffic-bench/src/schedule.rs:316-347 | flooring inverts exactly: an index is due by an instant if and only if it is at most the closed-form quotient |
| `OpenLoop.EntitledIsLargest` | crates/irontraffic-bench/src/schedule.rs:316-347 | the closed-form entitlement is the largest index that is due, clamped to the last index |
| `OpenLoop.OwedClosedForm` | crates/irontraffic-bench/src/schedule.rs:316-347 | the naive one-at-a-time count of owed requests equals the closed form |
| `OpenLoop.NewSchedule` | crates/irontraffic-bench/src/schedule.rs:201-223 | construction succeeds exactly for an accepted configuration, starts at index 0, and otherwise names the parameter that was refused |
| `OpenLoop.Schedule.constructor` | crates/irontraffic-bench/src/schedule.rs:201-223 | a new schedule is valid and has released nothing |
| `OpenLoop.Schedule.ReleasableAt` | crates/irontraffic-bench/src/schedule.rs:287-385 | the constant-time call returns the release, and leaves the state, of the naive loop that walks due times one by one |
| `OpenLoop.ReleasedOnce` | crates/irontraffic-bench/src/schedule.rs:287-385 | over any sequence of clock readings, monotone or not, the released indices are exactly the contiguous range from the first index to the next one, each once and in order |
| `OpenLoop.NeverEarly` | crates/irontraffic-bench/src/schedule.rs:287-385 | no request of any run is released before its due time or past the last index |
| `OpenLoop.DrainAfter` | crates/irontraffic-bench/src/schedule.rs:349-366 | after n calls at one instant the debt paid and the bursts counted, saturation included, are closed forms |
| `OpenLoop.DrainExact` | crates/irontraffic-bench/src/schedule.rs:349-366 | a debt D is drained in exactly ceil(D / burst cap) calls, not one fewer, of which all but the last are counted as capped |
| `OpenLoop.WakeReleases` | crates/irontraffic-bench/src/schedule.rs:290-377 | the wake instant is never in the past, waking at it releases a request unless the schedule is exhausted, and exhaustion gives the sentinel |
| `OpenLoop.WakeIsEarliest` | crates/irontraffic-bench/src/schedule.rs:287-377 | at every instant from the call up to the wake instant nothing is due, so no earlier wake would release a request |
| `OpenLoop.DebtIsWhatIsDue` | crates/irontraffic-bench/src/schedule.rs:316-347 | the reported debt is the number of requests from the next index on whose due times have passed |
| `OpenLoop.DueIsRoundedDown` | crates/irontraffic-bench/src/schedule.rs:233-251 | a due time is the origin plus the exact offset of its index, rounded down to a nanosecond |
| `OpenLoop.SentinelMeansExhausted` | crates/irontraffic-bench/src/schedule.rs:125-128 | the all-ones wake value means exhaustion at every call and every instant if and only if the last due time is not itself that value and all requests together are within the burst cap |
| `OpenLoop.SentinelCanBeLive` | crates/irontraffic-bench/src/schedule.rs:371-377 | two calls that get the all-ones wake value with requests left: a capped call at the largest instant, and a call before a last due time at it |
| `OpenLoop.WorkerInterleaving` | crates/irontraffic-bench/src/schedule.rs:61-66 | a worker schedule is at most one nanosecond before the global due time it stands for, and equal to it exactly under a remainder condition |
| `OpenLoop.WorkerOnTime` | crates/irontraffic-bench/src/schedule.rs:61-66 | a worker is on time at all its requests if and only if its offset modulo the total rate is below the greatest common divisor of a worker step and the total rate |
| `OpenLoop.SplitIsOnTime` | crates/irontraffic-bench/src/schedule.rs:61-66 | a split is on time at every request of every worker if and only if each worker has such an offset |
| `OpenLoop.InterleavingCanBeEarly` | crates/irontraffic-bench/src/schedule.rs:61-66 | a concrete pair of workers whose due time is one nanosecond early |
| `OpenLoop.RatesAddUp` | crates/irontraffic-bench/src/schedule.rs:67-74 | splitting a rate over workers with the remainder spread loses nothing |
| `OpenLoop.RatesAreEven` | crates/irontraffic-bench/src/schedule.rs:67-74 | the rates of any two workers differ by at most one, and an earlier worker never has the smaller one |
| `BufferPool.TryAcquire` | crates/irontraffic-conn/src/bodybuf.rs:274-339 | the retry loop is the recursive retry, and answers only what its own loads explain: a grant after a won swap of a value that left room, a refusal after a load that left no room or after 64 lost swaps |
| `BufferPool.FinishedAsTheLoop` | crates/irontraffic-conn/src/bodybuf.rs:274-339 | in every interleaving a finished call was answered as the loop answers on the values it loaded and the swaps it lost or won |
| `BufferPool.DropKeepsSum` | crates/irontraffic-conn/src/bodybuf.rs:376-408 | dropping a lease subtracts without wrapping and leaves the sum of the others |
| `BufferPool.StepKeepsInv` | crates/irontraffic-conn/src/bodybuf.rs:274-408 | every load, swap, call and drop of every thread keeps the outstanding word equal to the sum of live leases and at most the total |
| `BufferPool.ExecKeepsInv` | crates/irontraffic-conn/src/bodybuf.rs:274-408 | the same over every interleaving of any number of threads |
| `BufferPool.NeverOverIssued` | crates/irontraffic-conn/src/bodybuf.rs:274-408 | from an empty pool, in every interleaving, outstanding is the sum of live leases, never exceeds the total, and is 0 when no lease is left |
| `BufferPool.LossesAreCounted` | crates/irontraffic-conn/src/bodybuf.rs:290-338 | in every interleaving the values a thread has loaded match the swaps it has lost, and each lost swap is paid for by a spurious failure or by a change of the word by another access |
| `BufferPool.RefusalsAreExplained` | crates/irontraffic-conn/src/bodybuf.rs:284-338 | in every interleaving a refused call saw a value that left no room, or lost 64 swaps each after a load that left room, with 64 at most the spurious failures plus the changes by others |
| `BufferPool.RacesBehindARefusal` | crates/irontraffic-conn/src/bodybuf.rs:270-273 | if a call suffers at most b spurious failures, giving up takes m changes of the word by others if and only if m is at most 64 - b; so the documented 64 lost races hold exactly for swaps that never fail spuriously |
| `BufferPool.StepRefinesAtomic` | crates/irontraffic-conn/src/bodybuf.rs:274-408 | each access is one allowed acquire, release or nothing of an indivisible budget |
| `BufferPool.RunRefinesAtomic` | crates/irontraffic-conn/src/bodybuf.rs:274-408 | every interleaving of the accesses is an allowed run of the indivisible budget and ends in the same leases |
| `BufferPool.AllowedKeepsTotal` | crates/irontraffic-conn/src/bodybuf.rs:274-408 | an allowed operation of the indivisible budget keeps it within its total |
| `BufferPool.UndisturbedSwapWins` | crates/irontraffic-conn/src/bodybuf.rs:300-330 | a strong swap wins if no other thread moved the word since the load |
| `BufferPool.RefusedAlone` | crates/irontraffic-conn/src/bodybuf.rs:270-273 | a single thread on an empty pool can be refused by spurious failures alone, so lost races are not needed for a refusal |
| `BodyInspection.SameIsObservable` | crates/irontraffic-conn/src/bodybuf.rs:143-177 | lease size and overflow handling agree at every size exactly when ceiling and action agree; the equivalence used for merging is that plus the kind of buffering |
| `BodyInspection.CombineAssociative` | crates/irontraffic-conn/src/bodybuf.rs:181-234 | merging is associative on the nose |
| `BodyInspection.CombineCommutes` | crates/irontraffic-conn/src/bodybuf.rs:181-234 | merging commutes up to observation, and literally if and only if one side inspects or the unused fields agree |
| `BodyInspection.NoneIsIdentity` | crates/irontraffic-conn/src/bodybuf.rs:133-140 | the empty declaration is a left identity literally and a right identity up to observation, with the exact condition for literal equality |
| `BodyInspection.CombineSummarises` | crates/irontraffic-conn/src/bodybuf.rs:181-234 | merging two summaries summarises the union: the ceiling is the maximum with whole bodies winning ties, and overflow rejects if and only if some inspecting declaration rejects |
| `BodyInspection.MergeSummarises` | crates/irontraffic-conn/src/bodybuf.rs:181-234 | any grouping of declarations merges to a summary of all of them |
| `BodyInspection.SummaryIsUnique` | crates/irontraffic-conn/src/bodybuf.rs:143-234 | two summaries of the same declarations cannot be told apart |
| `BodyInspection.MergeIsOrderFree` | crates/irontraffic-conn/src/bodybuf.rs:143-234 | any two groupings and orders of the same declarations have the same lease size and the same overflow action at every size |
| `BodyInspection.MergeActs` | crates/irontraffic-conn/src/bodybuf.rs:143-177 | a merged route acts exactly once the count is above every ceiling, refusing the request if and only if some inspecting member would and streaming on otherwise, and it reserves the greatest ceiling |
| `FrameBudget.ConnBudget.WithParams` | crates/irontraffic-conn/src/budget.rs:171-187 | a budget starts full, with the clock at the given reading |
| `FrameBudget.ConnBudget.New` | crates/irontraffic-conn/src/budget.rs:162-170 | a default budget holds 10000 tokens, refills 1000 a second and allows 128 streams |
| `FrameBudget.ShippedPrices` | crates/irontraffic-conn/src/budget.rs:296-315 | the price of each of the eleven kinds of frame in the shipped table |
| `FrameBudget.PricesAreSeparate` | crates/irontraffic-conn/src/budget.rs:277-294 | each of the ten prices moves its own kind of frame and no other, and an ordinary frame costs the base |
| `FrameBudget.ConnBudget.OnFrame` | crates/irontraffic-conn/src/budget.rs:199-239 | one call refills, debits and answers as the arithmetic on tokens and watermark says, with wrap-around, clamp and saturation written out |
| `FrameBudget.RunBound` | crates/irontraffic-conn/src/budget.rs:199-239 | over any run, admitted cost is bounded by the tokens at hand plus the credit of the true elapsed time |
| `FrameBudget.RunRate` | crates/irontraffic-conn/src/budget.rs:199-239 | from a new budget, admitted cost is at most capacity plus the floored refill of the whole run |
| `FrameBudget.WindowRate` | crates/irontraffic-conn/src/budget.rs:199-239 | any window after any earlier frames admits at most capacity plus the refill of the window rounded up, across clock wrap-around, the 60 s clamp, saturation and calls after errors |
| `FrameBudget.WindowRateIsSharp` | crates/irontraffic-conn/src/budget.rs:199-239 | the rounding up in the window bound is needed |
| `FrameBudget.WindowOfOneKind` | crates/irontraffic-conn/src/budget.rs:199-239 | in any window after any earlier frames, the frames admitted of one kind times the price of that kind are within capacity plus the refill of the window |
| `FrameBudget.ResetsAreBounded` | crates/irontraffic-conn/src/budget.rs:100-135 | with the shipped parameters a window of ms milliseconds admits at most (10000 + ms) / 41 resets from the peer |
| `FrameBudget.CreditLedger` | crates/irontraffic-conn/src/budget.rs:206-220 | at any rate, between clamps, earned credit is exactly 1000 per granted token plus what was dropped, and what is dropped is at most 999 thousandths per token unless the product saturates |
| `FrameBudget.PendingIsFraction` | crates/irontraffic-conn/src/budget.rs:206-220 | what has not been credited yet is less than one token |
| `FrameBudget.TowardZero` | crates/irontraffic-conn/src/budget.rs:206-220 | the division by 1000 rounds toward zero, for a negative refill rate too |
| `FrameBudget.HalfCredit` | crates/irontraffic-conn/src/budget.rs:206-220 | between clamps, floored refills deliver more than half of the earned credit over any run, for every rate of which saturation takes at most half |
| `FrameBudget.HalfCreditReach` | crates/irontraffic-conn/src/budget.rs:206-220 | the half bound holds for all unclamped runs if and only if thirty times the rate is within a thousandth of the 64-bit maximum |
| `FrameBudget.HalfIsSharp` | crates/irontraffic-conn/src/budget.rs:206-220 | a rate for which every tick loses 999 thousandths of a token |
| `FrameBudget.RemainderKept` | crates/irontraffic-conn/src/budget.rs:209-220 | at any rate, nothing earned is lost in any unclamped run if and only if the rate is not positive, or is a multiple of 1000 per second whose 60 s product does not saturate |
| `FrameBudget.TokensLedger` | crates/irontraffic-conn/src/budget.rs:199-239 | tokens are conserved in every run: start plus grants, minus what exceeds the capacity at each refill, minus costs, plus what falls below the smallest count at each debit, which is nothing while the costs can be counted |
| `FrameBudget.ConnBudget.OpenStream` | crates/irontraffic-conn/src/budget.rs:249-258 | a stream slot is taken exactly while one is free, and tokens are untouched |
| `FrameBudget.ConnBudget.CloseStream` | crates/irontraffic-conn/src/budget.rs:261-263 | a slot is returned, stopping at zero, and tokens are untouched |
| `FrameBudget.StreamsStayWithinLimit` | crates/irontraffic-conn/src/budget.rs:249-263 | over any sequence of opens and closes the count stays within the limit and is the start plus opens admitted minus streams closed |
| `Calendar.CivilStep` | crates/irontraffic-bench/src/provenance.rs:669-685 | every day number gives a valid proleptic Gregorian date, and the next day number gives its calendar successor under the leap-year rule |
| `Calendar.CivilEpoch` | crates/irontraffic-bench/src/provenance.rs:669-685 | day 0 is 1970-01-01 |
| `Calendar.CivilCounts` | crates/irontraffic-bench/src/provenance.rs:669-685 | counting days from the epoch to the computed date gives the day number back |
| `Calendar.CivilInverse` | crates/irontraffic-bench/src/provenance.rs:669-685 | every valid date is computed from its own day count |
| `Calendar.CivilOrder` | crates/irontraffic-bench/src/provenance.rs:669-685 | later day numbers give later dates |
| `Calendar.FormatOrder` | crates/irontraffic-bench/src/provenance.rs:700-713 | timestamps up to the end of year 9999 are in lexicographic order of time |
| `Calendar.OrderBreaks` | crates/irontraffic-bench/src/provenance.rs:700-713 | the order fails at the first second of year 10000 |
| `Calendar.FormatOrderReach` | crates/irontraffic-bench/src/provenance.rs:700-713 | the order holds below a bound if and only if the bound is at most year 10000 |
| `Calendar.FormatInjective` | crates/irontraffic-bench/src/provenance.rs:700-713 | no two 64-bit timestamps print the same, negative years after the cast included |
| `Calendar.FormatReadsBack` | crates/irontraffic-bench/src/provenance.rs:700-713 | up to the end of year 9999 the text has twenty characters with its separators in place, and its six numbers give the timestamp back |
| `Calendar.AsI64Wraps` | crates/irontraffic-bench/src/provenance.rs:700-702 | the cast of the second count keeps it, or wraps it by 2^64, into the signed range |
| `StampGrammar.BodyComplete` | crates/irontraffic-bench/src/provenance.rs:971-1004 | every spelling of a string, short escapes and four-digit escapes included, is read back as its meaning |
| `StampGrammar.BodySound` | crates/irontraffic-bench/src/provenance.rs:971-1004 | every string that is read has such a spelling |
| `StampGrammar.DocumentComplete` | crates/irontraffic-bench/src/provenance.rs:1050-1102 | every printed document whose members fill the stamp parses to that stamp, with any whitespace between tokens |
| `StampGrammar.DocumentSound` | crates/irontraffic-bench/src/provenance.rs:1050-1102 | every accepted text is the print of a document with that stamp |
| `StampGrammar.AcceptsExactly` | crates/irontraffic-bench/src/provenance.rs:1050-1102 | a text parses to a stamp if and only if it is the print of a document that gives that stamp |
| `StampGrammar.AcceptedKeys` | crates/irontraffic-bench/src/provenance.rs:1050-1102 | every accepted text has each of the six keys exactly once and no other |
| `StampGrammar.ParseInvertsPrint` | crates/irontraffic-bench/src/provenance.rs:1050-1102 | any document with the six keys in any order, any whitespace and any spelling of its strings parses to the stamp it was printed from |
| `StampGrammar.EveryStringHasASpelling` | crates/irontraffic-bench/src/provenance.rs:971-1004 | every string value can be printed |
| `StampGrammar.UnicodeEscapes` | crates/irontraffic-bench/src/provenance.rs:971-1004 | a four-character escape is accepted if and only if it is a hexadecimal number, possibly with a leading plus sign, that is not a surrogate |
| `StampGrammar.LiteralAccepted` | crates/irontraffic-bench/src/provenance.rs:971-1004 | a literal spelled as section 7 of RFC 8259 allows is accepted if and only if no piece of it names a surrogate, and is then read piece by piece as the code points the RFC gives for its short escapes and its four hexadecimal digits |
| `StampGrammar.ShortIsHex` | crates/irontraffic-bench/src/provenance.rs:979-996 | each short escape is read like the four-digit escape of the code point the RFC gives it |
| `StampGrammar.WhiteSpaceIs` | crates/irontraffic-bench/src/provenance.rs:949-953 | white space is the four characters of section 2 of RFC 8259 |
| `StampGrammar.SpellIsRfc` | crates/irontraffic-bench/src/provenance.rs:971-1004 | every character has a spelling of section 7 of RFC 8259 |
| `StampGrammar.SurrogatePairRefused` | crates/irontraffic-bench/src/provenance.rs:989-995 | the literal with the escapes D83D and DE00 is refused |
| `StampGrammar.PlusSignIsAccepted` | crates/irontraffic-bench/src/provenance.rs:985-996 | the escape with the four characters +041 is read as the letter A, outside section 7 of RFC 8259 |
| `StampParser.JsonParser.constructor` | crates/irontraffic-bench/src/provenance.rs:942-947 | a new parser has the whole text to read |
| `StampParser.JsonParser.Skip` | crates/irontraffic-bench/src/provenance.rs:949-953 | the cursor moves over whitespace and stops at the first other character |
| `StampParser.JsonParser.Bump` | crates/irontraffic-bench/src/provenance.rs:959-961 | one character is consumed, none at the end |
| `StampParser.JsonParser.ExpectChar` | crates/irontraffic-bench/src/provenance.rs:963-965 | succeeds exactly when the next character is the expected one, and consumes it |
| `StampParser.JsonParser.Text` | crates/irontraffic-bench/src/provenance.rs:971-1004 | the character loop reads exactly the string literal the grammar reads |
| `StampParser.JsonParser.TakeLiteral` | crates/irontraffic-bench/src/provenance.rs:1016-1025 | a literal is consumed exactly when it is a prefix of the rest, and nothing moves otherwise |
| `StampParser.JsonParser.Boolean` | crates/irontraffic-bench/src/provenance.rs:1006-1014 | the two literals and nothing else |
| `StampParser.JsonParser.StringArray` | crates/irontraffic-bench/src/provenance.rs:1027-1046 | the element loop reads exactly the array the grammar reads |
| `StampParser.MemberValue` | crates/irontraffic-bench/src/provenance.rs:1072-1080 | the value of a known key is stored once; a repeated or unknown key is refused |
| `StampParser.MemberOf` | crates/irontraffic-bench/src/provenance.rs:1066-1080 | one key, colon and value |
| `StampParser.ParseStampJson` | crates/irontraffic-bench/src/provenance.rs:1050-1102 | the cursor loop over the whole object equals the parsing function that the grammar theorems are about |
| `StampPrinter.JsonEscape` | crates/irontraffic-origin/src/main.rs:61-77 | any string, escaped by the origin, is read back by the stamp parser |
| `StampPrinter.OriginVersionJson` | crates/irontraffic-origin/src/main.rs:82-98 | what the origin prints for its version parses to its stamp, whatever its version and commit strings are |
| `StampPrinter.OriginReadsBack` | crates/irontraffic-origin/src/main.rs:82-98 | the same for any name and profile that need no escape, and for no others |
| `StampPrinter.RawReads` | crates/irontraffic-bench/src/provenance.rs:971-1004 | a string written without escaping is read back if and only if it needs no escape |
| `StampPrinter.ServerReadsBack` | crates/irontraffic/src/main.rs:23-47 | the line with the six keys in alphabetical order parses to its stamp if and only if no string in it needs an escape |
| `StampPrinter.ServerVersionJson` | crates/irontraffic/src/main.rs:23-47 | the feature loop and the rest of the server printer produce that line |
| `CappedDrain.StepKeepsInv` | crates/irontraffic-bench/src/provenance.rs:732-756 | every check, read, add and flag of every drain thread keeps the shared counter equal to the bytes accounted for, and each thread adds past the cap at most once |
| `CappedDrain.BoundedOvershoot` | crates/irontraffic-bench/src/provenance.rs:732-756 | in every interleaving of N threads, buffered bytes never exceed the cap plus N reads of 4096, and each buffer is a prefix of its source |
| `CappedDrain.FlagIsExact` | crates/irontraffic-bench/src/provenance.rs:732-756 | when all threads have exited, the flag is set if and only if more than the cap was buffered |
| `CappedDrain.OvershootFromStart` | crates/irontraffic-bench/src/provenance.rs:732-756 | for every cap and any number of threads with enough to read, some interleaving buffers a whole read per thread beyond the cap |
| `CappedDrain.OvershootIsExact` | crates/irontraffic-bench/src/provenance.rs:725-756 | for every cap, n threads stay within m reads beyond it in all interleavings if and only if n is at most m, or m reads beyond the cap are all a 64-bit counter can hold; so the documented one read is for one thread |
| `CorpusSyntax.TextComplete` | crates/irontraffic-bench/src/corpus.rs:636-732 | every well-formed expression, printed, parses to its elements |
| `CorpusSyntax.TextSound` | crates/irontraffic-bench/src/corpus.rs:636-732 | every accepted expression is the print of well-formed syntax |
| `CorpusSyntax.AcceptsExactly` | crates/irontraffic-bench/src/corpus.rs:636-732 | an expression parses to a list of elements if and only if it is the print of well-formed syntax with that meaning |
| `CorpusSyntax.ParseInvertsPrint` | crates/irontraffic-bench/src/corpus.rs:636-732 | printing any list of elements in normal form and parsing it gives the list back |
| `CorpusSyntax.CountComplete` | crates/irontraffic-bench/src/corpus.rs:499-538 | one number, or two with a comma, in order and at most 16, each with an optional plus sign and leading zeros, are read as their values |
| `CorpusSyntax.CountSound` | crates/irontraffic-bench/src/corpus.rs:499-538 | every accepted repetition is such a text |
| `CorpusSyntax.OneByte` | crates/irontraffic-bench/src/corpus.rs:636-732 | a single byte is an expression if and only if it is printable and not one of the nine reserved bytes |
| `CorpusSyntax.ReadsU32` | crates/irontraffic-bench/src/corpus.rs:499-538 | numbers of up to 32 bits are read as themselves and larger ones refused |
| `CorpusSyntax.MembersComplete` | crates/irontraffic-bench/src/corpus.rs:549-600 | a class of single members and ranges gives the alphabet its members spell out |
| `CorpusSyntax.MembersSound` | crates/irontraffic-bench/src/corpus.rs:549-600 | every accepted class body is such a list of members |
| `CorpusParser.RepeatAt` | crates/irontraffic-bench/src/corpus.rs:499-538 | the search for the closing brace and the two bounds agree with the grammar, cursor included |
| `CorpusParser.ClassBody` | crates/irontraffic-bench/src/corpus.rs:549-600 | the member loop with its inner range loop computes the alphabet of the grammar |
| `CorpusParser.AltBody` | crates/irontraffic-bench/src/corpus.rs:605-628 | the chunk loop returns the alternatives exactly when there are two or more and each is a non-empty literal run |
| `CorpusParser.Elems` | crates/irontraffic-bench/src/corpus.rs:636-732 | the cursor loop computes the parse of the grammar for every byte string |
| `CorpusExpansion.ParsedIsDrawable` | crates/irontraffic-bench/src/corpus.rs:549-628 | whatever parses can be drawn from: no empty alphabet, no empty alternation, bounds in order |
| `CorpusExpansion.SampledExactly` | crates/irontraffic-bench/src/corpus.rs:802-857 | the sampler can return a word if and only if the word belongs to the language of the expression |
| `CorpusExpansion.ParsedIsPrintable` | crates/irontraffic-bench/src/corpus.rs:636-732 | a printable expression parses to elements with printable bytes only |
| `CorpusExpansion.WordPrintable` | crates/irontraffic-bench/src/corpus.rs:802-861 | every word of such elements is printable |
| `CorpusExpansion.MaxLenIsSharp` | crates/irontraffic-bench/src/corpus.rs:737-761 | the expansion bound is the length of the longest word: none is longer and one is as long |
| `CorpusExpansion.MaxExpansion` | crates/irontraffic-bench/src/corpus.rs:737-761 | the checked 64-bit computation returns the bound, and refuses exactly when it does not fit |
| `CorpusExpansion.SampleLoop` | crates/irontraffic-bench/src/corpus.rs:804-851 | the nested drawing loops compute the sample the draws determine |
| `RouteTable.DigitWidthIsLength` | crates/irontraffic-bench/src/corpus.rs:131-137 | the rendered width is the number of digits of the largest index |
| `RouteTable.WidthsAgree` | crates/irontraffic-bench/src/corpus.rs:131-166 | for 10^w routes the table renders w digits if and only if w is at least 1 |
| `RouteTable.PowerOfTenWidth` | crates/irontraffic-bench/src/corpus.rs:145-166 | the multiplying loop finds w exactly when the count is 10^w, and its overflow exit never hides one |
| `RouteTable.BuildTable` | crates/irontraffic-bench/src/corpus.rs:191-241 | errors in order, and otherwise the table of the shape: n routes with zero-padded index, or the mixed table, each with cluster index modulo the cluster count |
| `RouteTable.NearestRealWorldSize` | crates/irontraffic-bench/src/corpus.rs:253-269 | the loop returns the nearest of the three sizes, the smaller one on a tie |
| `RouteTable.MixTable` | crates/irontraffic-bench/src/corpus.rs:281-309 | the mixed table has the nearest size and cycles its four templates |
| `RouteTable.MixPatternsDistinct` | crates/irontraffic-bench/src/corpus.rs:281-309 | no two routes of a mixed table share a pattern |
| `RouteTable.MixTexts` | crates/irontraffic-bench/src/corpus.rs:281-309 | the first route of each of the four templates |
| `RouteTable.PatternsDistinct` | crates/irontraffic-bench/src/corpus.rs:217-241 | no two routes of a table share a pattern |
| `RouteTable.PatternMeans` | crates/irontraffic-bench/src/corpus.rs:217-241 | a path matches the text of a generated pattern if and only if it is the prefix, the padded index, and a tail with one segment for the placeholder and one word for the group |
| `RouteTable.MatchesAtMostOne` | crates/irontraffic-bench/src/corpus.rs:217-241 | a path matches at most one pattern of a table, for every table size |
| `RouteTable.SameDepth` | crates/irontraffic-bench/src/corpus.rs:217-241 | a path has as many separators as the pattern it matches |
| `RouteTable.MixMatchesAtMostOne` | crates/irontraffic-bench/src/corpus.rs:281-309 | a path matches at most one pattern of a mixed table |
| `RouteTable.ClustersInTurn` | crates/irontraffic-bench/src/corpus.rs:217-309 | in every table the routes take their clusters in turn, starting from the first |
| `RouteTable.NearestIs` | crates/irontraffic-bench/src/corpus.rs:253-269 | 36 up to 126 routes, 217 up to 413, and 609 from there on |
| `Decimal.PadBijection` | crates/irontraffic-bench/src/corpus.rs:224-232 | zero padding is a bijection between the numbers below 10^w and the w-digit strings |
| `CorpusFile.SolePattern` | crates/irontraffic-bench/src/corpus.rs:338-353 | the loop over the lines returns the one line that is neither blank nor a comment, trimmed, and otherwise says whether there was none or more than one |
| `CorpusFile.NoPatternIsSkipped` | crates/irontraffic-bench/src/corpus.rs:338-353 | a line holds no pattern only if it is white space up to its end or up to a number sign |
| `CorpusFile.Utf8WidthIsLeast` | crates/irontraffic-bench/src/corpus.rs:329-334 | the bytes counted for a character are the fewest its code point fits in |
| `CorpusFile.ReplacesFirst` | crates/irontraffic-bench/src/corpus.rs:365-371 | the marker that is replaced is the first one, and everything around it stays |
| `CorpusFile.MarkerFound` | crates/irontraffic-bench/src/corpus.rs:364-369 | there is something to replace if and only if the marker occurs |
| `CorpusFile.ReadPattern` | crates/irontraffic-bench/src/corpus.rs:319-380 | reading a file is refused, in order, for size, number of pattern lines, unprintable bytes, missing marker and length after substitution, and otherwise gives the pattern with the width in place of the marker |
| `CorpusFile.ReadIsPrintable` | crates/irontraffic-bench/src/corpus.rs:356-380 | whatever is read is printable |
| `CorpusFile.FileHoldsPattern` | crates/irontraffic-bench/src/corpus.rs:338-353 | a file of blank lines, comments and one printable pattern line, with white space around it, holds that pattern |
| `PathCorpus.CommittedLines` | bench/corpora/paths-adversarial.regex:16-16 | the two patterns the model works with are the committed pattern lines, character by character |
| `PathCorpus.MarkerReplaced` | crates/irontraffic-bench/src/corpus.rs:371-371 | replacing the first width marker of a committed pattern changes the index repetition and nothing else |
| `PathSampling.PathExpr` | crates/irontraffic-bench/src/corpus.rs:422-453 | refused unless the count is a power of ten, and for one route unless the corpus is the fixed one; otherwise the fixed path, or what the corpus file gives for the width |
| `PathSampling.CommittedReads` | crates/irontraffic-bench/src/corpus.rs:319-380 | the committed files give, at every width, the expression of their corpus |
| `PathSampling.CommittedForm` | crates/irontraffic-bench/src/corpus.rs:338-353 | blank lines, comments and the pattern line make a file of the committed form |
| `PathCorpus.ExprParses` | crates/irontraffic-bench/src/corpus.rs:422-439 | every corpus expression parses to the elements one reads off it |
| `PathCorpus.FileWordNamesOne` | crates/irontraffic-bench/src/corpus.rs:382-388 | every word of a file-backed corpus at width w matches exactly one pattern of the generated table of 10^w routes |
| `PathCorpus.EveryRouteIsNamed` | crates/irontraffic-bench/src/corpus.rs:382-388 | every pattern of the generated table of 10^w routes is matched by some word |
| `PathCorpus.ZeroWidthNamesNone` | crates/irontraffic-bench/src/corpus.rs:390-411 | at width zero no word matches the pattern of the generated one-route table, which is why one route is refused |
| `PathCorpus.HotWordNamesZero` | crates/irontraffic-bench/src/corpus.rs:390-430 | the fixed corpus has one word, and it matches the first pattern of the generated table at every power of ten, one route included |
| `PathSampling.WidthsWithATable` | crates/irontraffic-bench/src/corpus.rs:60-60 | with the committed file, an expression is produced for every width but zero for file-backed corpora, and the paired table is built if and only if the width is at most 6 |
| `PathSampling.ExpressionWithoutTable` | crates/irontraffic-bench/src/corpus.rs:191-196 | at ten million routes there is an expression and the table is refused |
| `PathSampling.SamplesFit` | crates/irontraffic-bench/src/corpus.rs:793-857 | the late length guard never fires once the early bound is within the limit |
| `PathSampling.DrawPaths` | crates/irontraffic-bench/src/corpus.rs:801-861 | the outer loop returns the requested number of samples, drawn in turn from one generator |
| `PathSampling.SamplesOf` | crates/irontraffic-bench/src/corpus.rs:790-861 | parse, bound and draw succeed exactly when the expression parses and its bound is within the limit |
| `PathSampling.SamplesAreSendable` | crates/irontraffic-bench/src/corpus.rs:852-861 | samples of a printable expression are printable and within the length limit, so turning them into text cannot fail |
| `PathSampling.PathSamples` | crates/irontraffic-bench/src/corpus.rs:782-862 | with the committed files the whole pipeline is refused exactly for a bad sample count, a count of routes that is no power of ten, or one route with a file-backed corpus, and otherwise every path is within the length limit and matches exactly one pattern of any table built for that corpus and count; with any file every returned path is printable and within the limit |
| `Recorders.SamplesConserved` | crates/irontraffic-bench/src/hist.rs:280-318 | a recorder keeps every value either as a sample or in the out-of-range count |
| `Recorders.MergeOfRecorded` | crates/irontraffic-bench/src/hist.rs:333-339 | merging two recorders is recording all their values into one |
| `Recorders.HeldOrderFree` | crates/irontraffic-bench/src/aggregate.rs:262-265 | what recorders hold together does not depend on the order they are merged in |
| `ProbeLoop.StallTracker.OnBlocked` | crates/irontraffic-bench/src/schedule.rs:444-448 | the first blocked instant is kept until the interval closes |
| `ProbeLoop.StallTracker.OnUnblocked` | crates/irontraffic-bench/src/schedule.rs:468-481 | closing records one interval from the kept instant, counts a backwards clock, and does nothing when none is open |
| `ProbeLoop.Probe.Head` | crates/irontraffic-bench/src/probe.rs:694-716 | a new reset generation replaces all four recorders and publishes the count of dropped latency samples |
| `ProbeLoop.Probe.Reconnect` | crates/irontraffic-bench/src/probe.rs:729-742 | a connection that is made again is counted and its duration recorded |
| `ProbeLoop.Probe.Send` | crates/irontraffic-bench/src/probe.rs:725-791 | connect and write: the counters, streak, connection flag and stall interval after every outcome |
| `ProbeLoop.Probe.Receive` | crates/irontraffic-bench/src/probe.rs:793-814 | read: the counters, recorders and connection flag after every outcome |
| `ProbeLoop.Probe.Run` | crates/irontraffic-bench/src/probe.rs:693-815 | for any sequence of outcomes the loop ends with its counters, recorders and acknowledgements equal to functions of the whole history |
| `ProbeLoop.TotalsOfRun` | crates/irontraffic-bench/src/probe.rs:693-815 | after any number of iterations, issued requests are good, bad or errors |
| `ProbeLoop.ReconnectsOfRun` | crates/irontraffic-bench/src/probe.rs:693-815 | after any number of iterations, reconnects never exceed errors plus bad responses |
| `ProbeLoop.WhyItEnded` | crates/irontraffic-bench/src/probe.rs:693-815 | a run ends only by a hundred failures in a row, by a stop, at the end of the schedule, or with every request issued, and issues no request at or after the first of these |
| `ProbeLoop.ReconnectsAreCaused` | crates/irontraffic-bench/src/probe.rs:725-814 | each reconnect, and a connection that is down now, is paid for by an earlier error or bad response |
| `ProbeLoop.StreakMeans` | crates/irontraffic-bench/src/probe.rs:725-814 | the error streak reaches k if and only if the last k exchanges all failed |
| `ProbeLoop.AbortMeansHundredFailures` | crates/irontraffic-bench/src/probe.rs:693-815 | at every loop head the run is aborted if and only if its last 100 exchanges all failed, and no earlier 100 in a row had |
| `ProbeLoop.SamplesOfRun` | crates/irontraffic-bench/src/probe.rs:693-815 | at every loop head, latency samples since the last reset are the completed exchanges since then, stall intervals the successful writes, and connect samples the reconnects, with the first connection until the first reset |
| `ProbeSamples.LatencyOfRun` | crates/irontraffic-bench/src/probe.rs:793-814 | at every loop head, the latency and first-byte samples are, in order, the times from the due times of the requests answered since the last recorder swap, at least one nanosecond each, without those above a minute |
| `ProbeSamples.StallsOfRun` | crates/irontraffic-bench/src/probe.rs:725-791 | at every loop head, the stall samples are, in order, the times from the due time of the oldest request then waiting to each write since the last recorder swap, and an interval is open exactly while a request waits |
| `ProbeSamples.ConnectsOfRun` | crates/irontraffic-bench/src/probe.rs:694-742 | at every loop head, the connect samples are those of the reconnects since the last recorder swap, after the first connection if there was none |
| `ResetHandshake.StepKeepsInv` | crates/irontraffic-bench/src/probe.rs:350-716 | every step of the probe thread and of any number of resetting callers keeps the handshake invariant |
| `ResetHandshake.ExecKeepsInv` | crates/irontraffic-bench/src/probe.rs:350-716 | the same over every interleaving |
| `ResetHandshake.WarmupIsGone` | crates/irontraffic-bench/src/probe.rs:350-376 | acknowledged never passes requested, and once a reset has returned every sample was recorded after its request |
| `ResetHandshake.CountIsExact` | crates/irontraffic-bench/src/probe.rs:350-376 | a caller whose generation is still the newest gets exactly the number of in-range samples its own swap dropped |
| `ResetHandshake.SerialCallsAreExact` | crates/irontraffic-bench/src/probe.rs:350-376 | when no call starts while another is under way, every call returns what its own swap dropped, from any number of callers and after timed-out calls |
| `ResetHandshake.CountsAreExactFor` | crates/irontraffic-bench/src/probe.rs:350-376 | every call of every run with n callers returns what its own swap dropped if and only if n is at most 1 |
| `ResetHandshake.OverlappingCallsMiscount` | crates/irontraffic-bench/src/probe.rs:350-376 | for any two or more callers, a run of overlapping resets in which the first is told 0 although its swap dropped a sample |
| `ResetHandshake.CountsWhatWasRecorded` | crates/irontraffic-bench/src/probe.rs:694-716 | over any run without a swap, the number a swap would publish grows by the in-range samples recorded |
| `ResetHandshake.TimeoutTakesPolls` | crates/irontraffic-bench/src/probe.rs:350-376 | in every interleaving a call times out only after 2000 polls of its own |
| `ResetHandshake.UnansweredTimesOut` | crates/irontraffic-bench/src/probe.rs:350-376 | 2000 polls in a row without an answer time out, and fewer do not |
| `NestingScan.MaxFlowNestingDepth` | crates/irontraffic-config/src/load.rs:301-315 | the one-pass saturating loop returns the largest excess of opening over closing brackets over all substrings |
| `NestingScan.ScanIsLargest` | crates/irontraffic-config/src/load.rs:301-315 | the two running values are the largest suffix rise and the largest rise, attained and never exceeded |
| `NestingScan.BalancedDepth` | crates/irontraffic-config/src/load.rs:301-315 | on balanced text the result is the nesting depth of the structure |
| `NestingScan.NestedDepth` | crates/irontraffic-config/src/load.rs:301-315 | n brackets of either kind around any text without brackets are found to be n deep |
| `Aggregate.SortUnstable` | crates/irontraffic-bench/src/aggregate.rs:216-221 | the sort returns the sorted permutation |
| `Aggregate.FromRuns` | crates/irontraffic-bench/src/aggregate.rs:185-265 | refused, in order, for no repetition, mixed cells and a wrong number of recorders; otherwise the statistics of any sort of the values, and all recorders merged |
| `Aggregate.SortIsUnique` | crates/irontraffic-bench/src/aggregate.rs:216-221 | there is only one sorted permutation |
| `Aggregate.OrderFree` | crates/irontraffic-bench/src/aggregate.rs:185-245 | the published statistics do not depend on the order of the runs |
| `Aggregate.RankFromBelow` | crates/irontraffic-bench/src/aggregate.rs:63-95 | after one replacement a rank is at least the old value one rank below |
| `Aggregate.RankFromAbove` | crates/irontraffic-bench/src/aggregate.rs:63-95 | after one replacement a rank is at most the old value one rank above |
| `Aggregate.MedianIsRobust` | crates/irontraffic-bench/src/aggregate.rs:63-95 | with three or more runs, replacing one value by any other leaves the median between its old neighbours in rank |
| `Aggregate.SummaryOrdered` | crates/irontraffic-bench/src/aggregate.rs:63-95 | minimum, lower quartile, median, upper quartile and maximum are in order, and the relative spread is exact up to flooring unless clamped |
| `Aggregate.SummaryRanks` | crates/irontraffic-bench/src/aggregate.rs:63-95 | the median is the lower middle value, the quartiles are a quarter and three quarters of the way up, and the extremes are the smallest and the largest value |
| `Aggregate.SpreadLimits` | crates/irontraffic-bench/src/aggregate.rs:63-95 | the relative spread is zero for a zero median and sticks at the largest 32-bit number exactly when it would reach it |

## Left out

- ProbeLoop.ReconnectsOfRun: assumes that a response which ends the connection is never counted as good, which is how the exchange reader reports it (crates/irontraffic-bench/src/probe.rs:539-574); the reader itself is not modelled.
- ResetHandshake.WarmupIsGone: the refusal of a reset after the probe thread has finished is not modelled.
- FrameBudget.HalfCredit: speaks of runs in which no two refills are more than the 60 s clamp apart; what the capacity takes is accounted for in `TokensLedger` instead.
- FrameBudget.WindowRate: for cost tables in which no frame has a negative cost.
- CappedDrain.BoundedOvershoot: for caps and streams such that a 64-bit counter can hold the cap plus one read per thread, or all that the streams deliver.
- Aggregate.SortUnstable: sorts a sequence value rather than a vector in place.
- Aggregate.FromRuns: the validity verdict and the floating-point request rate of the aggregate are not modelled.
- StampPrinter.ServerVersionJson: the splitting and sorting of the feature list before it is printed are not modelled.
- PathSampling.PathSamples: the generator is a tape of draws, so nothing is said about how it turns a seed into draws or about uniformity.
- PathSampling.PathExpr: failing to open a corpus file is not modelled; the text of the file is an input.
- CorpusParser.Elems: error texts and byte offsets are not modelled, only whether and what is accepted; it covers all byte strings, not only UTF-8 text.
- OpenLoop.Schedule.ReleasableAt: the latency accessor beside it is one saturating subtraction and appears only in the probe's recorders.
- Memory orderings: every protocol is a sequence of atomic accesses in one order.
- The internals of the latency histogram: a recorder is a list of in-range samples and a count of the others.
- Processes, signals, sockets, the accept loop, the drain supervisor and host inspection.
- The validity rules for cells and configurations, the cell registry, floating-point helpers and serialisation shapes.
