# Verification model of WinterJS

A Dafny model of four parts of WinterJS, a JavaScript runtime for services, and
proofs of what they are meant to do:

- the Node `Buffer` codecs: IEEE 754 numbers, variable-width integers, UTF-8, base64
  and byte-string search;
- the request runner: a dispatcher, its worker threads, and the queue each of them keeps;
- the service-worker `Cache` and `CacheStorage`;
- async context propagation (`AsyncLocalStorage`, `AsyncResource`, timers, microtasks).

`dafny verify dfyconfig.toml` checks everything.

## How it is laid out

| files | what they hold |
|---|---|
| `Wrappers`, `Helpers`, `Division`, `Powers`, `ByteOrder` | options and results, small functions, division, powers of two, byte strings as numbers |
| `Ieee754`, `Rounding`, `FloatLaws` | `ieee754.js`: reading and writing binary32 and binary64, how a double is rounded to binary32, and what holds of every kind of number |
| `TwosComplement` | the signed and unsigned integers of 1 to 6 bytes |
| `Unicode`, `Utf8` | UTF-8 and UTF-16 as the RFCs define them; the codec of `buffer.js` |
| `Base64`, `Base64Laws` | `base64-js.js` and the cleaning done before decoding; that this is the encoding of RFC 4648 |
| `ByteSearch` | `indexOf` and `lastIndexOf` |
| `RequestQueue`, `FairDrain`, `WorkerProtocol`, `RequestLoop` | pending requests, what a drain owes each of them, what a worker may do step by step, and the loop that does it |
| `PoolProtocol`, `SingleRunner` | the dispatcher with its threads as a step system, and the class that implements its part |
| `CacheEntries`, `Cache`, `CacheStorage` | matching and lists of entries, the cache operations, named caches |
| `AsyncContext`, `AsyncLaws`, `AsyncHooks` | programs evaluated by passing environments, what that comes to, and the stack of copied frames |

Code that changes state step by step is a class or a method with a loop, proved
against functions and relations on values; the lasting properties are lemmas about
those. Whatever the code cannot decide itself is a parameter or a nondeterministic
choice, so that a theorem covers every run: which message, promise or body comes
next, what handlers and fetches answer, how the logarithm is rounded, which callback
the host runs. Bit operations on bytes are written with `/` and `%`. The arithmetic
of `ieee754.js` is over exact reals.

## What the proofs found

- `write` of `ieee754.js` rounds every double to binary32 correctly when the logarithm
  estimate is exact or one too high. From an estimate one too low the rounding nudge
  is halved, and what is past half but not past three quarters of a unit is cut down;
  and at the top of a binade the nudge overflows the significand, where `|` adds the
  carry to an even biased exponent and loses it in an odd one. `Rounding.RoundsExactly`
  says exactly when the result is right: for every number below the normal range, and
  for powers of two and what is at most half a unit above them
  (`Rounding.JustAbovePowersFit`), a low estimate does no harm. `Rounding.LowEstimateCutsDown`
  and `Rounding.LowEstimateLosesCarry` are two inputs where it does.
- `utf8ToBytes` drops the last of two lead surrogates that end a string. This is the
  only case where a lone surrogate does not become U+FFFD (`Utf8.EncodedCharacters`).
- `toByteArray` throws for a string that starts with `=`, and puts two zero bytes
  in place of a complete group followed by `=` (`Base64.DecodeIsComplete`). Cleaned
  strings meet neither case.
- A `Terminate` that a worker takes from its channel would leave the messages behind
  it unanswered. In the pool there are none: `Shutdown` is always sent first and no
  request follows it, so even a terminated worker has answered all its requests
  (`PoolProtocol.NothingLost`).
- Cache matching is not symmetric (`CacheEntries.MatchingIsNotSymmetric`), so what
  storing keeps is that no entry's request matches an *earlier* entry. `addAll` makes
  its check in the direction this needs.
- `addAll` checks the scheme of request objects only, so a URL string with another
  scheme fails after earlier requests of its batch were stored (`Cache.SecondSchemeFails`).
  Part of a batch is stored exactly when the batch reaches the commits, the first of
  them succeeds and another does not (`Cache.PartlyStored`); how much is stored is
  `Cache.StoredCount` in every case.

## Model

| member | source | states |
|---|---|---|
| Ieee754.Read | src/builtins/internal_js_modules/__winterjs_internal/ieee754.js:3-42 | the bit-field loops, in either byte order, return the datum that section 3.4 of IEEE 754-2008 gives the bytes |
| Ieee754.Write | src/builtins/internal_js_modules/__winterjs_internal/ieee754.js:44-104 | the bytes hold the sign and the joined fields of the value; bytes outside are unchanged; no field overflows into the sign, for any estimate within one |
| Ieee754.WriteFields | src/builtins/internal_js_modules/__winterjs_internal/ieee754.js:45-85 | exponent and significand come out as nudging, correcting and cutting the value define them |
| Ieee754.WrittenCode | src/builtins/internal_js_modules/__winterjs_internal/ieee754.js:59-94 | normal, subnormal, carried or overflowing: unless a low estimate lets the nudge reach the next binade, the code word counts the whole units in the last place of the nudged value, capped at infinity |
| Ieee754.RoundTrip | src/builtins/internal_js_modules/__winterjs_internal/ieee754.js:3-104 | writing what was read gives back every non-NaN bit pattern, for any estimate within one of the exponent |
| Ieee754.EstimateExists | src/builtins/internal_js_modules/__winterjs_internal/ieee754.js:60 | every number read has an exponent that a logarithm can estimate, so the round trip is never vacuous |
| Ieee754.BinaryRoundTrip | src/builtins/internal_js_modules/node/buffer.js:1388-1410 | the round trip for binary32 and binary64, the two formats in use |
| Ieee754.Rewrite | src/builtins/internal_js_modules/__winterjs_internal/ieee754.js:3-104 | read followed by write leaves the whole buffer as it was, in either byte order |
| FloatLaws.KindsReadBack | src/builtins/internal_js_modules/__winterjs_internal/ieee754.js:52-58 | from every good estimate a NaN, and nothing else, reads back as a NaN, an infinity as the same infinity, and the sign of everything but a NaN is kept |
| FloatLaws.WriteThenRead | src/builtins/internal_js_modules/__winterjs_internal/ieee754.js:3-104 | the same of a buffer that is written and then read, in either byte order, with the rest of it untouched |
| FloatLaws.StandardFields | src/builtins/internal_js_modules/__winterjs_internal/ieee754.js:13-31 | a pattern is its sign, exponent and significand side by side, each within its width |
| FloatLaws.StandardValue | src/builtins/internal_js_modules/__winterjs_internal/ieee754.js:33-41 | the value of normal and subnormal fields, and the bias, are those of section 3.4 of IEEE 754-2008 |
| FloatLaws.StandardFormats | src/builtins/internal_js_modules/node/buffer.js:1388-1410 | the exponent widths and biases of the two formats in use |
| Rounding.RoundsExactly | src/builtins/internal_js_modules/__winterjs_internal/ieee754.js:59-94 | for every double and every estimate within one: the result is within half a unit, or infinity above the largest finite number plus half a unit, if and only if the estimate is not low or the low estimate fits |
| Rounding.RoundingBound | src/builtins/internal_js_modules/__winterjs_internal/ieee754.js:59-83 | a finite result is within half a unit in the last place of its binade, across the subnormal boundary and carries into the next exponent |
| Rounding.OverflowsExactly | src/builtins/internal_js_modules/__winterjs_internal/ieee754.js:65-77 | the result is infinite if and only if the number is above the largest finite one plus half a unit |
| Rounding.LowUnits | src/builtins/internal_js_modules/__winterjs_internal/ieee754.js:60-69 | a low estimate cuts a normal number at three quarters of a unit |
| Rounding.TopCode | src/builtins/internal_js_modules/__winterjs_internal/ieee754.js:70-94 | at the top of a binade bitwise or adds the carry to an even exponent and drops it from an odd one |
| Rounding.JustAbovePowersFit | src/builtins/internal_js_modules/__winterjs_internal/ieee754.js:60-80 | a power of two, and what is up to half a unit above it, is rounded right from a low estimate too |
| Rounding.LowEstimateCutsDown | src/builtins/internal_js_modules/__winterjs_internal/ieee754.js:60-69 | 5/8 of a unit above 1 a low estimate does not fit |
| Rounding.LowEstimateLosesCarry | src/builtins/internal_js_modules/__winterjs_internal/ieee754.js:60-94 | 1/8 of a unit below 2 a low estimate writes 1 |
| TwosComplement.ReadUInt | src/builtins/internal_js_modules/node/buffer.js:1149-1180 | the loop sums the bytes to the number they denote; out of bounds is a range error |
| TwosComplement.ReadInt | src/builtins/internal_js_modules/node/buffer.js:1269-1303 | the same with the sign of two's complement |
| TwosComplement.WriteInt | src/builtins/internal_js_modules/node/buffer.js:1563-1607 | exactly the two's complement bytes of a value in range, big-endian being the reverse of little-endian, or the right error and no change |
| TwosComplement.WriteUInt | src/builtins/internal_js_modules/node/buffer.js:1418-1456 | exactly the bytes of a value in range, or the right error and no change |
| TwosComplement.BorrowedDigit | src/builtins/internal_js_modules/node/buffer.js:1577-1580 | the truncated quotient less the sticky borrow is the byte of the floored quotient, through the 32-bit conversion |
| TwosComplement.IntegerRoundTrip | src/builtins/internal_js_modules/node/buffer.js:1269-1303 | reading back gives every value in range, signed or not, in either byte order |
| TwosComplement.BytesRoundTrip | src/builtins/internal_js_modules/node/buffer.js:1563-1607 | every byte string is the encoding of the integer it reads as, which is in range |
| TwosComplement.WriteThenRead | src/builtins/internal_js_modules/node/buffer.js:1563-1607 | a value written into any buffer is read back from it |
| Unicode.StandsAlone | src/builtins/internal_js_modules/node/buffer.js:978-1025 | no two characters begin with the same bytes |
| Unicode.DecodedUtf8 | src/builtins/internal_js_modules/node/buffer.js:971-1045 | decoding the UTF-8 of any text gives the text |
| Unicode.Utf16Characters | src/builtins/internal_js_modules/node/buffer.js:1033-1040 | every text survives UTF-16, which is well-formed |
| Unicode.JunkIsReplaced | src/builtins/internal_js_modules/node/buffer.js:1027-1032 | malformed bytes between two texts become one U+FFFD each, and cost neither text anything |
| Unicode.StrayByte | src/builtins/internal_js_modules/node/buffer.js:979-985 | tails, and the bytes RFC 3629 leaves out, begin no character |
| Unicode.FirstBytes | src/builtins/internal_js_modules/node/buffer.js:2017-2043 | the first byte of a character lies in the range the table of RFC 3629 gives for its length |
| Unicode.Examples | src/builtins/internal_js_modules/node/buffer.js:2017-2043 | the bytes of examples of RFC 3629 and of U+FFFD, and the pair of an example of RFC 2781 |
| Utf8.CodePointAt | src/builtins/internal_js_modules/node/buffer.js:977-1025 | the switch finds a character if and only if its bytes stand there, with its length |
| Utf8.Utf8Slice | src/builtins/internal_js_modules/node/buffer.js:971-1045 | any bytes become the characters standing in them, each other byte U+FFFD |
| Utf8.DecodeCodePointsArray | src/builtins/internal_js_modules/node/buffer.js:1052-1068 | chunks of 4096 code units leave no trace, even where they cut a pair |
| Utf8.Utf8ToBytes | src/builtins/internal_js_modules/node/buffer.js:1973-2051 | any string is encoded character by character as far as the budget goes, lone surrogates as U+FFFD; a budget of zero is none |
| Utf8.EncodedCharacters | src/builtins/internal_js_modules/node/buffer.js:1980-2009 | the encoding is that of all the characters if and only if the string does not end in two leads; otherwise just the last U+FFFD is missing |
| Utf8.LongestPrefix | src/builtins/internal_js_modules/node/buffer.js:2017-2043 | a bounded encoding is that of the longest prefix of the text that fits |
| Utf8.TextOfEncoded | src/builtins/internal_js_modules/node/buffer.js:971-1045 | any string comes back with its lone surrogates replaced |
| Utf8.DecodeEncode | src/builtins/internal_js_modules/node/buffer.js:1973-2051 | a string comes back unchanged if and only if it is well-formed |
| Utf8.EncodeDecode | src/builtins/internal_js_modules/node/buffer.js:971-1045 | bytes come back unchanged if and only if they are well-formed UTF-8 |
| Utf8.TextWellFormed | src/builtins/internal_js_modules/node/buffer.js:1027-1041 | whatever the bytes, the decoder's output is well-formed |
| Utf8.DecodingIsStable | src/builtins/internal_js_modules/node/buffer.js:971-1045 | encoding a decoded text and decoding it again changes nothing |
| Utf8.BlitBuffer | src/builtins/internal_js_modules/node/buffer.js:2082-2089 | as many bytes as source, length and room allow are copied, and no others change |
| Utf8.Utf8Write | src/builtins/internal_js_modules/node/buffer.js:871-873 | what is written is the whole characters there is room for, cut off after `length` bytes; nothing else changes |
| Utf8.CutIsWhole | src/builtins/internal_js_modules/node/buffer.js:871-873 | what is written is whole characters if and only if it ends where one does, as it always does when `length` covers the room |
| Base64.FromByteArray | src/builtins/internal_js_modules/__winterjs_internal/base64-js.js:115-146 | the result is the encoding of the whole array, whatever the chunks |
| Base64.EncodeChunk | src/builtins/internal_js_modules/__winterjs_internal/base64-js.js:102-113 | the digits of the slice |
| Base64Laws.LookupIsStandard | src/builtins/internal_js_modules/__winterjs_internal/base64-js.js:7-11 | digit n is the n-th character of the alphabet of section 4 of RFC 4648 |
| Base64Laws.UrlSafeIsSectionFive | src/builtins/internal_js_modules/__winterjs_internal/base64-js.js:13-16 | and in the URL-safe text the n-th of that of section 5 |
| Base64Laws.DigitsAreBoth | src/builtins/internal_js_modules/__winterjs_internal/base64-js.js:7-16 | a character is understood if and only if it is in either alphabet, as its place there; any other reads as zero |
| Base64Laws.EncodingShape | src/builtins/internal_js_modules/__winterjs_internal/base64-js.js:95-146 | every encoding has four characters for each three bytes or part of three: digits of the standard alphabet, none of them `-` or `_`, and then the missing bytes as `=` |
| Base64Laws.BitsInOrder | src/builtins/internal_js_modules/__winterjs_internal/base64-js.js:102-142 | the digits hold the bits of the bytes in order, filled up with zero bits |
| Base64Laws.Examples | src/builtins/internal_js_modules/__winterjs_internal/base64-js.js:115-146 | examples of section 10 of RFC 4648, and one with the digits 62 and 63 |
| Base64.ToByteArray | src/builtins/internal_js_modules/__winterjs_internal/base64-js.js:49-93 | which strings are errors, and for every other string what fills the array exactly |
| Base64.DecodeIsComplete | src/builtins/internal_js_modules/__winterjs_internal/base64-js.js:60-90 | exactly the digits before the first `=` are decoded if and only if they do not end in a complete group that `=` follows |
| Base64.LensFit | src/builtins/internal_js_modules/__winterjs_internal/base64-js.js:18-47 | the computed length is that of the groups and the bytes after them, and negative just for a leading `=` |
| Base64.Base64Clean | src/builtins/internal_js_modules/node/buffer.js:1957-1971 | the digits before the first `=`, padded to a multiple of four, or nothing if there are fewer than two |
| Base64.PaddedDecodes | src/builtins/internal_js_modules/node/buffer.js:1966-1970 | a padded string decodes to the bytes of its digits, also when one digit stands alone |
| Base64.Base64ToBytes | src/builtins/internal_js_modules/node/buffer.js:2078-2080 | any text is decoded without an error to the bytes of its digits |
| Base64.RoundTrip | src/builtins/internal_js_modules/__winterjs_internal/base64-js.js:18-146 | the encoding of any bytes decodes to them, padded or not, in either alphabet |
| Base64.EncodeDecode | src/builtins/internal_js_modules/__winterjs_internal/base64-js.js:49-146 | re-encoding gives back the digits if and only if they are canonical |
| Base64.SextetsOfOctets | src/builtins/internal_js_modules/__winterjs_internal/base64-js.js:77-90 | the bytes of the digits give them back if and only if no bits were lost |
| ByteSearch.IndexForward | src/builtins/internal_js_modules/node/buffer.js:801-812 | the one-pass search with its index moving back ends, and returns the least match, or -1 if there is none |
| ByteSearch.IndexBackward | src/builtins/internal_js_modules/node/buffer.js:813-825 | the greatest match at or before the offset, or -1 if there is none |
| ByteSearch.BidirectionalIndexOf | src/builtins/internal_js_modules/node/buffer.js:718-772 | first or last match seen from the offset a caller means, negative ones from the end; an empty value is never found |
| ByteSearch.OffsetsCountFromEitherEnd | src/builtins/internal_js_modules/node/buffer.js:738 | an offset within the buffer is its own start, counted from the end if negative |
| ByteSearch.NoOffsetSearchesAll | src/builtins/internal_js_modules/node/buffer.js:732-735 | without an offset the first, or last, of all matches is found |
| ByteSearch.NumberIsByte | src/builtins/internal_js_modules/node/buffer.js:759-760 | a number stands for the byte equal to it modulo 256 |
| ByteSearch.SameMatches | src/builtins/internal_js_modules/node/buffer.js:737-745 | moving an offset to the edge of the buffer, or giving up, changes no result |
| RequestQueue.RequestQueue.PollRequest | src/runners/request_queue.rs:132-144 | a request follows its settled promises to the end; if it is answered there its sender is used, once |
| RequestQueue.RequestQueue.PollNext | src/runners/request_queue.rs:73-97 | one request finishes with its own answer, or else one body completes, or else nothing was ready |
| RequestQueue.RequestQueue.CancelAll | src/runners/request_queue.rs:54-60 | every queued request gets the reply for the reason and the queue of requests is empty; taking a sender never fails |
| RequestQueue.RequestQueue.CancelUnfinished | src/runners/request_queue.rs:108-115 | polls until the first that finds nothing ready, then cancels what is left |
| RequestQueue.PolledSize | src/runners/request_queue.rs:77-96 | a poll that finds something ready decreases twice the requests plus the continuations |
| RequestQueue.PolledConserves | src/runners/request_queue.rs:77-96 | a poll neither loses nor duplicates a reply sender |
| RequestQueue.DrainOutcome | src/runners/request_queue.rs:108-115 | a drain is bounded by the size of the queue; it sends one reply for each queued request; answers found ready are the requests' own, and only what was not ready in the last scene is cancelled |
| FairDrain.FollowedIsPath | src/runners/request_queue.rs:132-144 | a poll finds an answer if and only if a chain of settled promises leads to it, and then that answer |
| FairDrain.DrainIsFair | src/runners/request_queue.rs:108-115 | when settled promises stay settled, a drain sends each queued request its own answer if its promise is settled by the last poll, and status 500 if it is not; unfinished bodies stay |
| FairDrain.ReadyIsAnswered | src/runners/request_queue.rs:110-113 | a request ready at any poll of the drain gets its own answer and no other reply |
| FairDrain.PollPrefersRequests | src/runners/request_queue.rs:81-94 | a poll finishes a request if and only if one is ready, and finds nothing only if no body is complete either |
| FairDrain.ReplyDataIs | src/runners/request_loop.rs:227-277 | the reply for each answer and each reason, and the body each answer leaves behind |
| RequestQueue.ContinuationSurvives | src/runners/request_queue.rs:54-60 | a continuation that never completed is still there |
| RequestQueue.CancelledAnswers | src/runners/request_queue.rs:54-60 | cancelling answers each sender in the queue |
| WorkerProtocol.StepConserves | src/runners/request_loop.rs:116-142 | requests taken are those answered and those in the queue, with no overlap |
| WorkerProtocol.ExactlyOneReply | src/runners/request_loop.rs:46-168 | in every run no sender is used more often than it was received, and each just as often once the loop has ended, normally, by `Terminate`, or with a failed script |
| WorkerProtocol.FailedScriptReplies | src/runners/request_loop.rs:58-68 | a failed script is reported to the first request, and all others get an empty error |
| RequestLoop.PollIsAnswer | src/runners/request_loop.rs:227-252 | a poll answers at most one queued request, with its own result |
| RequestLoop.DrainIsAnswer | src/runners/request_loop.rs:150-153 | a drain answers every queued request, with its own result or status 500 |
| RequestLoop.EndedExactly | src/runners/request_loop.rs:111-168 | a loop that has ended has used each sender among its messages once |
| RequestLoop.RequestLoop.HandleNewRequest | src/runners/request_loop.rs:171-208 | a new request is answered at once, with its body pushed, or queued with its sender and promise |
| RequestLoop.RequestLoop.Receive | src/runners/request_loop.rs:117-142 | each message is a step of the protocol, and what it does to the queue and the shutdown flag; `Terminate` answers all queued requests with 503 |
| RequestLoop.RequestLoop.Next | src/runners/request_loop.rs:144-145 | the branch is one poll of the queue in the scene it finds |
| RequestLoop.RequestLoop.FinishedEventLoop | src/runners/request_loop.rs:151-153 | the queue is drained fairly: ready requests get their own answers, and afterwards none is pending |
| RequestLoop.RequestLoop.Select | src/runners/request_loop.rs:116-163 | each branch is a step of the protocol and does to the loop's state what it should |
| RequestLoop.FinishedRequestsAreAnswered | src/runners/request_loop.rs:150-153 | in every run, when the event loop finishes, a request is sent its own answer if its promise was settled by the last poll, and the 500 only if not |
| RequestLoop.NewRequestsAreStarted | src/runners/request_loop.rs:126-141 | in every run, a new request is answered or queued as the handler says, or told that it came after shutdown |
| RequestLoop.QueueIsPolled | src/runners/request_loop.rs:144-145 | in every run, the queue's branch is one poll in the scene it finds |
| RequestLoop.ControlIsObeyed | src/runners/request_loop.rs:119-125 | in every run, shutdown is remembered if and only if it was requested or the channel closed, and `Terminate` and nothing else ends the loop at once |
| RequestLoop.RequestLoop.BreakIfDone | src/runners/request_loop.rs:111-114 | the loop is left if and only if shutdown was requested, the event loop is empty and nothing is queued |
| RequestLoop.RequestLoop.HandleRequestsInner | src/runners/request_loop.rs:111-168 | every run of the loop is a run of the protocol and takes the branches given; it ends if and only if `Terminate` came or nothing is left after shutdown; once ended each request received has one reply |
| RequestLoop.RequestLoop.ReportFailure | src/runners/request_loop.rs:52-69 | the loop after a failed script is a run of the protocol |
| PoolProtocol.PickIsFair | src/runners/single.rs:96-139 | the chosen thread's load times the maximum is at most the total load, so it has no live guard while the total is below the maximum |
| PoolProtocol.PickIsLeast | src/runners/single.rs:115-138 | the first idle thread is preferred, and in a full pool the first of the least busy |
| PoolProtocol.PickSpawns | src/runners/single.rs:123-126 | a thread is spawned only below the maximum and while every other is busy |
| PoolProtocol.DispatchIsFair | src/runners/single.rs:96-139 | that holds of every dispatch in every run; threads exceed neither the maximum nor the peak of simultaneous requests |
| PoolProtocol.PeakIsReached | src/runners/single.rs:159-174 | the peak is the most guards alive at once in the run so far |
| PoolProtocol.NextLoads | src/runners/single.rs:159-174 | every step keeps each counter equal to the number of its live guards |
| PoolProtocol.NextInvariant | src/runners/single.rs:144-217 | every step keeps the loads, the channels and the replies as they should be |
| PoolProtocol.NothingLost | src/runners/single.rs:189-201 | in every run no request follows a control message in a channel, and a thread whose loop has ended answered each request put on its channel once |
| PoolProtocol.ShutdownReachesAll | src/runners/single.rs:192-198 | in every run, after shutdown each thread has ended, knows, or has `Shutdown` in its channel |
| PoolProtocol.TerminateReachesAll | src/runners/single.rs:212-217 | and after the timeout each has ended or has `Terminate` in its channel |
| PoolProtocol.HandledIsAnswered | src/runners/single.rs:164-170 | in every run, a request handled before shutdown has been answered once the loop of its thread has ended |
| PoolProtocol.NoRequestAfterShutdown | src/runners/request_loop.rs:127-131 | the branch for a new request after shutdown is unreachable |
| PoolProtocol.SendSucceeds | src/runners/single.rs:164-167 | before shutdown no thread has finished, so sending to it succeeds |
| SingleRunner.SingleRunner.PickThread | src/runners/single.rs:96-139 | the first idle thread, else a new one, else the first of the least busy |
| SingleRunner.SingleRunner.Handle | src/runners/single.rs:144-170 | a dispatch is one step of the pool; no guard, and the 503 response, if and only if the runner was shut down |
| SingleRunner.SingleRunner.Drop | src/runners/single.rs:248-252 | dropping a guard lowers the counter of its thread and no other |
| SingleRunner.SingleRunner.RequestShutdown | src/runners/single.rs:192-198 | every unfinished thread is told, under the lock that sets the flag |
| SingleRunner.SingleRunner.SendTerminate | src/runners/single.rs:212-217 | after shutdown, every unfinished thread is told |
| CacheEntries.MatchesExactly | src/builtins/cache/mod.rs:101-157 | matching, if and only if, on method, scheme, location, query, Vary and each header it names; fragments never count |
| CacheEntries.StorableExactly | src/builtins/cache/mod.rs:187-218 | what put accepts, if and only if, part by part |
| CacheEntries.PutErrorExactly | src/builtins/cache/mod.rs:187-218 | and the first thing wrong with what it does not |
| CacheEntries.PlacesInOrder | src/builtins/cache/mod.rs:80-98 | the places of the matching entries, in order and all of them |
| CacheEntries.MatchingAtPlaces | src/builtins/cache/mod.rs:80-98 | the matching entries are those at the matching places |
| CacheEntries.MatchingIsNotSymmetric | src/builtins/cache/mod.rs:101-157 | two storable entries of which one's request matches the other and not the reverse |
| CacheEntries.MatchesItself | src/builtins/cache/mod.rs:101-157 | what put accepts matches its own request |
| CacheEntries.PutGood | src/builtins/cache/mod.rs:233-251 | a put keeps every entry's request from matching an earlier entry, and all entries storable |
| CacheEntries.DeleteGood | src/builtins/cache/mod.rs:256-277 | so does a delete with any options |
| CacheEntries.PutIsFound | src/builtins/cache/mod.rs:233-251 | right after a put, matchAll on its request is the one new response |
| CacheEntries.BatchIsKept | src/builtins/cache/mod.rs:441-449 | a batch whose requests match no earlier member ends up last, whole and in order |
| CacheEntries.BatchIsFound | src/builtins/cache/mod.rs:441-449 | match on each request of a batch finds its own entry, whatever was stored before |
| CacheEntries.NextInvariant | src/builtins/cache/mod.rs:178-277 | every start, commit and failure of a put and every delete keeps the invariant |
| CacheEntries.RunSafety | src/builtins/cache/mod.rs:178-277 | over any interleaving no entry's request matches an earlier one, all are GET over http or https, and a commit is just then the only answer to its request |
| Cache.EntryList.MatchAllImpl | src/builtins/cache/mod.rs:64-99 | the responses of the matching entries in order, up to the maximum; errors of a URL only if one is wanted |
| Cache.EntryList.DeleteImpl | src/builtins/cache/mod.rs:256-277 | just the matching entries go, and the result tells whether there were any |
| Cache.EntryList.StartPut | src/builtins/cache/mod.rs:178-227 | which entries may wait for their body, and the first reason otherwise |
| Cache.EntryList.CommitPut | src/builtins/cache/mod.rs:229-253 | the entry replaces those its request matches |
| Cache.EntryList.AddAll | src/builtins/cache/mod.rs:336-456 | succeeds if and only if the batch is acceptable; what is stored is the first `StoredCount` requests of the batch, whether it succeeds or fails |
| Cache.SuccessIsAll | src/builtins/cache/mod.rs:441-449 | the batch is acceptable if and only if all of it is stored |
| Cache.PartlyStored | src/builtins/cache/mod.rs:348-449 | part of a batch is stored and `addAll` fails if and only if the upfront and fetch checks pass, the first commit succeeds and a later one does not |
| Cache.SecondSchemeFails | src/builtins/cache/mod.rs:348-361 | a batch of a request object and a URL string with another scheme stores just the first |
| Cache.EntryList.Keys | src/builtins/cache/mod.rs:490-534 | the requests of the matching entries in order |
| Cache.Gather | src/builtins/cache/mod.rs:370-439 | the fetching loop succeeds if and only if all requests parse, all responses fit and no request matches an earlier pair |
| Cache.ResponseFitsExactly | src/builtins/cache/mod.rs:412-436 | which fetched responses fit, if and only if, part by part |
| Cache.AddAllKeepsBatch | src/builtins/cache/mod.rs:336-456 | an accepted batch is kept whole, and match on each request finds the response fetched for it |
| CacheStorage.CacheStorage.constructor | src/builtins/cache/cache_storage.rs:147-167 | the default cache is there from the start |
| CacheStorage.CacheStorage.Open | src/builtins/cache/cache_storage.rs:97-114 | the list the name has, or a fresh empty one added at the end |
| CacheStorage.CacheStorage.Delete | src/builtins/cache/cache_storage.rs:116-133 | the name goes and its handles keep their list; the default cache stays |
| CacheStorage.CacheStorage.Match | src/builtins/cache/cache_storage.rs:52-91 | the first answer of the first selected cache that has one |
| CacheStorage.CacheStorage.Has | src/builtins/cache/cache_storage.rs:93-95 | whether some cache has the name |
| CacheStorage.CacheStorage.Keys | src/builtins/cache/cache_storage.rs:135-138 | the names in order, unique, the default first |
| CacheStorage.CacheStorage.GetDefault | src/builtins/cache/cache_storage.rs:141-144 | the assertion never fails |
| CacheStorage.RemoveCache | src/builtins/cache/cache_storage.rs:122-129 | removing a name keeps order and uniqueness, and leaves its handles with a list no name has |
| CacheStorage.Sharing | src/builtins/cache/cache_storage.rs:97-133 | live handles share a list if and only if they have one name; a handle of a deleted name shares with none of them |
| AsyncContext.EvalKeeps | src/builtins/internal_js_modules/node/async_hooks.ts:345-395 | in the environment-passing semantics no evaluation drops or alters a registered callback or an answer given |
| AsyncLaws.LexicalAnswers | src/builtins/internal_js_modules/node/async_hooks.ts:193-395 | in every run, where each getStore of a key stands in the scope of one value, callbacks counting as standing where they are registered, every answer for the key is that value |
| AsyncLaws.QuietAnswers | src/builtins/internal_js_modules/node/async_hooks.ts:291-315 | a program that calls nothing and cannot throw answers exactly the keys it asks for, in order |
| AsyncLaws.DeferredAnswers | src/builtins/internal_js_modules/node/async_hooks.ts:345-395 | a timer or microtask registered under run answers with the value bound there, whatever ran in between |
| AsyncLaws.BoundAnswers | src/builtins/internal_js_modules/node/async_hooks.ts:207-235 | so does a function bound under run, and the argument of a snapshot made there, wherever it is called |
| AsyncLaws.ResourceBoundAnswers | src/builtins/internal_js_modules/node/async_hooks.ts:207-210 | bind of a resource captures where it is called, not where the resource was made |
| AsyncLaws.ScopeAnswers | src/builtins/internal_js_modules/node/async_hooks.ts:186-205 | runInAsyncScope answers with what was bound where the resource was made |
| AsyncLaws.ThrowStops | src/builtins/internal_js_modules/node/async_hooks.ts:296-303 | nothing after a throw runs |
| AsyncLaws.HandlerRuns | src/builtins/internal_js_modules/node/async_hooks.ts:296-303 | a handler runs after a throw, with the effects before it in place, and only then |
| AsyncLaws.DeadKeyThrows | src/builtins/internal_js_modules/node/async_hooks.ts:170-171 | getStore of a collected storage throws |
| AsyncLaws.MissingThrows | src/builtins/internal_js_modules/node/async_hooks.ts:193-207 | using a variable that holds no resource, or no function, throws with no other effect |
| AsyncLaws.RunDistributes | src/builtins/internal_js_modules/node/async_hooks.ts:291-304 | run scopes over the parts of its callback, throws pass through it, and an inner run wins |
| AsyncLaws.RunsCommute | src/builtins/internal_js_modules/node/async_hooks.ts:92-105 | runs of different keys do not interfere |
| AsyncLaws.CallsAreDetached | src/builtins/internal_js_modules/node/async_hooks.ts:151-166 | calls of bound functions and scopes do not see where they stand |
| AsyncLaws.TaskStays | src/builtins/internal_js_modules/node/async_hooks.ts:345-395 | a one-shot callback leaves the queue when it runs, a repeating one stays |
| AsyncContext.MoreFuelScript | src/builtins/internal_js_modules/node/async_hooks.ts:193-395 | a run that is not cut short by the bound on calls is the same under every larger bound |
| AsyncHooks.Runtime.CapturedKept | src/builtins/internal_js_modules/node/async_hooks.ts:345-395 | whatever runs, the frame of a callback registered before stands for the environment captured then |
| AsyncHooks.AsyncContextFrame.constructor | src/builtins/internal_js_modules/node/async_hooks.ts:82-114 | a derived frame stands for the parent's environment with one key changed, and the parent and its entries keep their values |
| AsyncHooks.AsyncContextFrame.Get | src/builtins/internal_js_modules/node/async_hooks.ts:170-178 | a live key is answered as in the environment, and filtering dead entries changes no answer |
| AsyncHooks.Propagate | src/builtins/internal_js_modules/node/async_hooks.ts:92-105 | the clones with the new entry answer as the changed environment |
| AsyncHooks.LiveLookup | src/builtins/internal_js_modules/node/async_hooks.ts:93 | dropping dead entries is invisible to live keys |
| AsyncHooks.Runtime.GetStore | src/builtins/internal_js_modules/node/async_hooks.ts:312-315 | the answer is that of the current environment |
| AsyncHooks.Runtime.Scoped | src/builtins/internal_js_modules/node/async_hooks.ts:193-205 | a callback runs in the environment of the frame, and the stack is restored even if it throws |
| AsyncHooks.Runtime.Exec | src/builtins/internal_js_modules/node/async_hooks.ts:193-327 | every program has the effects of its environment-passing meaning and restores the stack |
| AsyncHooks.Runtime.ExecRun | src/builtins/internal_js_modules/node/async_hooks.ts:291-304 | run is evaluation with the key bound |
| AsyncHooks.Runtime.RunTask | src/builtins/internal_js_modules/node/async_hooks.ts:345-395 | a timer or microtask runs in the environment captured when it was registered |
| AsyncHooks.Runtime.RunScript | src/builtins/internal_js_modules/node/async_hooks.ts:193-395 | for every script and every order of its callbacks, each getStore answers as the pure semantics does and as the scopes of the script say, and a run cut short by the bound is told from a finished one |

## Left out

- SpiderMonkey, sockets, HTTP bodies, garbage collection and the command line: requests and responses are immutable records, handlers and fetches are parameters.
- Ieee754.RoundTrip: NaN patterns are excluded, because `write` replaces every NaN payload and sign by its own.
- Rounding.RoundsExactly: arithmetic is exact. The sum of the number and the nudge is not rounded to a double, which matters only at ties: exact arithmetic cuts half a unit (and a low estimate three quarters) downward, where doubles go up, and for the same reason the threshold of infinity itself is finite here. Which estimates `Math.log` yields is not modelled.
- Ieee754.WrittenCode: estimates more than one away from the exponent are not covered.
- TwosComplement.WriteInt: integer values and widths of 1 to 6 bytes only; fractions and the unchecked `noAssert` mode are left out, as are the fixed-width members.
- ByteSearch.BidirectionalIndexOf: whole offsets and single bytes only; the two-byte encodings, where offsets become fractions and the backward branch returns an element index, are left out.
- Base64.Base64Clean: `trim` is not a step of its own, because white space is removed with the other characters outside the alphabets.
- RequestQueue.RequestQueue.PollRequests: `FuturesUnordered` is its contract, any ready future if there is one; what is settled does not change within one poll, and a promise that resolves to itself counts as pending.
- FairDrain.DrainIsFair: that settled promises stay settled is a premise here; without it only what RequestQueue.DrainOutcome says is claimed.
- RequestLoop.RequestLoop.HandleRequestsInner: the setup of the engine and the script is one parameter, whether it failed; panics are not modelled.
- SingleRunner.SingleRunner.Handle: what the caller makes of the reply, the clock and the polling of `shutdown` are left out; dropping the guard is a step that may come at any time after.
- SingleRunner.SingleRunner.PickThread: the counters do not wrap at 32 bits.
- watch.rs: the runner that restarts on changes.
- Cache.EntryList.AddAll: no other writer interleaves; interleaved puts and deletes are in CacheEntries.RunSafety. Cloning a response or request never fails, stored requests are not changed by their owner, and neither are the headers of a response while a put waits for its body; a change there would escape the Vary check.
- CacheEntries.Matches: URLs arrive parsed and `Vary` arrives split, trimmed and in lower case; a header has one value.
- AsyncHooks.Runtime.Exec: calls between bound functions consume a bound, and a run that never ends is only ever seen cut short; arguments, results and string handlers of timers are left out, as are the promise hooks, whose order of calls is the engine's.
- The members of buffer.js with little logic: fixed-width reads and writes, hex, ascii and UCS-2 text, `concat`, `copy`, `fill`, `swap`, inspection.
- event.ts, crypto, routing and the other built-ins: thin wrappers, or calls to libraries that are not part of this model.
