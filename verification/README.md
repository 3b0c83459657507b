# Verified models of the concurrency and parsing labs

A Dafny model of the hardest programs of this repository, with proofs of what they promise. `dafny verify dfyconfig.toml`
checks everything.

**The HTTP/1.x parser** (picohttpparser, used by the caching proxies). The chunked decoder is a pure machine that reads one
octet at a time (`Chunked`), an executable class that rewrites its buffer in place the way the C does (`ChunkedDecoder`), and
a grammar of encoded messages (section 4.1 of RFC 7230) that the machine accepts exactly (`ChunkedGrammar`, with its sizes in
`ChunkedSizes`). The head parser is a set of plain scans (`HttpHead`, `HttpScans`), the imperative parser with both its fast
forms (`HttpParser`) and what it leaves in its out-parameters (`HttpOutputs`), what its answers on a prefix say about the
whole input (`HttpPrefix`) and about what is still to come (`HttpCompletion`), the incremental pre-check (`HttpPreCheck`), and
the grammars of request and response heads it accepts exactly (`HttpGrammar`, `HttpResponseGrammar`; sections 3.1, 3.2 and
3.2.6 of RFC 7230).

**Synchronisation protocols**, each as a step machine: a state, a program counter for each thread, an enabled action for each
thread, and runs under arbitrary schedules. The constants of the programs are parameters. Dining philosophers with a waiter
(`WaiterPhilosophers`) and with a state array (`StatePhilosophers`), the bounded queue with its shutdown (`BoundedQueue`), the
printing ring of mutexes (`MutexRing`), the two-thread barrier (`TwoThreadBarrier`) and the many-threaded bubble sort with a
lock for each node (`ConcurrentSort`, with `ConcurrentSortPasses`, `ConcurrentSortProgress`, `ConcurrentSortEnd`,
`ConcurrentSortLines` and `ConcurrentSortExamples`).
For each: an inductive invariant, safety of every run, freedom from deadlock, and, where the program ends, a bound on the
length of every run.

**Linked structures** as classes over nodes, refined to sequences and maps: the queue under the bounded queue
(`LinkedQueue`), the in-place stable bubble sort (`SortedList`, over the order in `Texts`), and the chained hash cache
(`HashCache`, on the hash in `CacheHash`).

`Bytes`, `Division`, `Sums` and `Sync` hold what several of these share.

## What the proofs found

* `phr_parse_headers` with a non-zero `last_len` can answer "incomplete" for a block that is complete: exactly when the
  input at the earlier call was a lone carriage return (`HttpPreCheck.HeadersPreCheckExactly`). Requests and responses are
  not affected.
* A call of the parser that answers -1 or -2 can have overwritten the name in the array entry behind those it counts in
  `num_headers` (`HttpParser.ParseHeaders`). What it has filled in is not lost work: on the way to a good message it is what
  the last call fills in (`HttpOutputs.WrittenRequestStays`).
* A pass without a swap in `Shinkevich/18/lab18.c` does not mean that the list is sorted: a line can be appended after the
  sorter has seen the end of the list and before it reads `node->next` again (`ConcurrentSortExamples.AppendSlipsIn`), and
  another of the hundred sorters can swap a line back to right behind it (`ConcurrentSortExamples.SwapSlipsIn`).
  `ConcurrentSortPasses.CalmPassMeansSorted` says, for any number of sorters, exactly where the list is then out of order.
  All the same, once nothing is appended the list is sorted within a bounded number of actions
  (`ConcurrentSortProgress.SortedInTime`), and what the sorters leave after the interrupt is sorted if one of them started a
  pass since the last append (`ConcurrentSortEnd.LeftSorted`). If the interrupt finds them all asleep, a line appended just
  before stays where it is, under the heading "Sorted list" (`ConcurrentSortEnd.LeftAsItIs`).
* The parser answers "incomplete" on a request that cannot become one in exactly two cases, an empty method and a version
  that is wrong within its first nine octets, and on such a response in exactly three: a wrong version, a wrong digit of the
  status, and a phrase without a space before it (`HttpCompletion.RequestAnswers`, `HttpCompletion.ResponseAnswers`).
* `GetHash` yields a bucket for every key over an alphabet exactly when no character of it is above 127 or all are multiples
  of the number of buckets (`CacheHash.HashIsBucketExactly`). `buckets_size` has `bucket_capacity` entries but is indexed by
  bucket: every ASCII key finds its count exactly when `size <= bucket_capacity` (`CacheHash.CountsFitExactly`), and with
  fewer counts `CacheHash.OnesPastTheCounts` names a key that does not. The two numbers come from the command line
  independently.
* The reset of `tail` that `pop` leaves out is harmless, because `push` looks at `head` first (`LinkedQueue.Queue.Pop`).

## Model

| member | source | states |
|---|---|---|
| `Chunked.SplitInvariance` | matsko/31_cache_proxy/picohttpparser-master/picohttpparser.h:68-78 | From every decoder state, cutting the input in two anywhere changes neither the answer, nor the decoder left behind, nor the payload, nor how much is read |
| `Chunked.AnyCutting` | matsko/31_cache_proxy/picohttpparser-master/picohttpparser.h:68-78 | The same for any number of pieces, by feeding them one after the other for as long as the answer is -2 |
| `Chunked.RunDataThen` | matsko/31_cache_proxy/picohttpparser-master/picohttpparser.c:591-607 | Chunk data is passed through octet for octet, up to the end of the chunk or of the input |
| `Chunked.AccumulateExact` | matsko/31_cache_proxy/picohttpparser-master/picohttpparser.c:566 | With at most fifteen digits before it, the 64-bit `size * 16 + digit` is the exact integer and stays below the power of 16 |
| `Chunked.SizeNeverWraps` | matsko/31_cache_proxy/picohttpparser-master/picohttpparser.c:551-568 | In the size state the size is below 16 to the number of digits, so a digit is added exactly; the seventeenth is refused |
| `Chunked.ValidAfterStep` | matsko/31_cache_proxy/picohttpparser-master/picohttpparser.c:548-647 | Every octet read keeps the bound on the size |
| `Chunked.ValidAfterRun` | matsko/31_cache_proxy/picohttpparser-master/picohttpparser.c:543-656 | So does every call, wherever it stops, so the bound carries over from one call to the next |
| `Chunked.SeventeenthDigitRejected` | matsko/31_cache_proxy/picohttpparser-master/picohttpparser.c:562-565 | A size of more than sixteen digits fails at the seventeenth, even when earlier calls read some of them |
| `ChunkedGrammar.RunLine` | matsko/31_cache_proxy/picohttpparser-master/picohttpparser.c:551-589 | A size line, with any extension that has no line feed and starts with no digit, leaves the decoder with the value of its digits |
| `ChunkedGrammar.RunChunk` | matsko/31_cache_proxy/picohttpparser-master/picohttpparser.c:550-622 | One encoded chunk puts out its data and returns to the size state |
| `ChunkedGrammar.RunTrailer` | matsko/31_cache_proxy/picohttpparser-master/picohttpparser.c:623-643 | Trailer lines are skipped up to and with the first blank line |
| `ChunkedGrammar.RoundTrip` | matsko/31_cache_proxy/picohttpparser-master/picohttpparser.c:543-656 | Decoding an encoded message followed by anything yields the concatenated chunks and stops exactly at its end, with or without trailer |
| `ChunkedGrammar.OnlyEncodings` | matsko/31_cache_proxy/picohttpparser-master/picohttpparser.c:543-656 | Whatever is decoded with success is an encoded message, and the payload is that of its chunks |
| `ChunkedGrammar.AcceptsExactlyTheGrammar` | matsko/31_cache_proxy/picohttpparser-master/picohttpparser.c:543-656 | Decoding succeeds if and only if the input begins with an encoded message |
| `ChunkedSizes.DigitsRead` | matsko/31_cache_proxy/picohttpparser-master/picohttpparser.c:529-541 | The octets read as digits are 0-9, A-F and a-f, and each is read as the number it writes |
| `ChunkedSizes.PrintedSize` | matsko/31_cache_proxy/picohttpparser-master/picohttpparser.c:551-568 | A number printed in base sixteen, in capital or small letters and with any leading zeros, is read as that number |
| `ChunkedSizes.LinesAnnounce` | matsko/31_cache_proxy/picohttpparser-master/picohttpparser.c:551-589 | The size lines of the grammar are exactly the lines of at most sixteen digits that print a number, with an extension that does not begin with a digit |
| `ChunkedSizes.AnnouncedSize` | matsko/31_cache_proxy/picohttpparser-master/picohttpparser.c:551-589 | After a size line the decoder has just the number that is printed there to read |
| `ChunkedSizes.CanBeCompleted` | matsko/31_cache_proxy/picohttpparser-master/picohttpparser.c:543-656 | From every state that a message can bring the decoder to, some octets complete the message |
| `ChunkedSizes.AnswersExactly` | matsko/31_cache_proxy/picohttpparser-master/picohttpparser.c:543-656 | The answer is the error if and only if no continuation of the input is a message, and -2 if and only if none is there yet and some continuation is one |
| `ChunkedDecoder.MoveDown` | matsko/31_cache_proxy/picohttpparser-master/picohttpparser.c:652-653 | Moving octets to a lower address, in place: what is moved, what is kept before it and what is untouched after it |
| `ChunkedDecoder.PhrChunkedDecoder.SizeCase` | matsko/31_cache_proxy/picohttpparser-master/picohttpparser.c:550-570 | The size digits: the fields, the place reached and the answer agree with the octet-wise machine, and nothing unread has changed |
| `ChunkedDecoder.PhrChunkedDecoder.ExtCase` | matsko/31_cache_proxy/picohttpparser-master/picohttpparser.c:572-589 | The rest of the size line, and where the end of the last line leads |
| `ChunkedDecoder.PhrChunkedDecoder.DataCase` | matsko/31_cache_proxy/picohttpparser-master/picohttpparser.c:591-607 | Moving the data down in place: the payload so far lies in front, no octet is overwritten before it is read |
| `ChunkedDecoder.PhrChunkedDecoder.CrlfCase` | matsko/31_cache_proxy/picohttpparser-master/picohttpparser.c:609-622 | The line end after the data |
| `ChunkedDecoder.PhrChunkedDecoder.TrailerHeadCase` | matsko/31_cache_proxy/picohttpparser-master/picohttpparser.c:623-632 | The head of a trailer line and the blank line that ends the trailer |
| `ChunkedDecoder.PhrChunkedDecoder.TrailerMiddleCase` | matsko/31_cache_proxy/picohttpparser-master/picohttpparser.c:634-643 | The rest of a trailer line |
| `ChunkedDecoder.PhrChunkedDecoder.Switch` | matsko/31_cache_proxy/picohttpparser-master/picohttpparser.c:549-646 | One turn of the outer loop ends the call or strictly consumes input |
| `ChunkedDecoder.PhrChunkedDecoder.Scan` | matsko/31_cache_proxy/picohttpparser-master/picohttpparser.c:548-651 | The whole loop terminates with `dst <= src`, the payload in front and all octets not read unchanged |
| `ChunkedDecoder.PhrChunkedDecoder.DecodeChunked` | matsko/31_cache_proxy/picohttpparser-master/picohttpparser.c:543-656 | The in-place decoder refines the pure one: return value, fields, payload, then exactly the undecoded octets, and nothing past the buffer size is touched |
| `HttpParser.TokenRanges` | matsko/31_cache_proxy/picohttpparser-master/picohttpparser.c:250-257 | The eight ranges of the fast token scan hold exactly the octets that are no token characters, and two that are, which the slow loop passes |
| `HttpParser.TargetRanges` | matsko/31_cache_proxy/picohttpparser-master/picohttpparser.c:74 | The ranges of the fast target scan are exactly the octets that end a target or spoil it |
| `HttpParser.ValueRanges` | matsko/31_cache_proxy/picohttpparser-master/picohttpparser.c:139-141 | The ranges of the fast value scan are exactly the octets that end a value |
| `HttpParser.FindCharFast` | matsko/31_cache_proxy/picohttpparser-master/picohttpparser.c:105-132 | The 16-octet block scan stops at the first octet in the ranges, or has scanned all whole blocks and found none; without SSE4.2 it does not move |
| `HttpParser.ParseToken` | matsko/31_cache_proxy/picohttpparser-master/picohttpparser.c:245-277 | With and without SSE4.2: the first stop octet with only token characters before it, else the error or "incomplete" |
| `HttpParser.AdvanceToken` | matsko/31_cache_proxy/picohttpparser-master/picohttpparser.c:71-94 | With and without SSE4.2: the first space with no control character before it |
| `HttpParser.ScanByEight` | matsko/31_cache_proxy/picohttpparser-master/picohttpparser.c:147-170 | The eight-fold unrolled loop skips nothing that ends a value |
| `HttpParser.GetTokenToEol` | matsko/31_cache_proxy/picohttpparser-master/picohttpparser.c:134-195 | With and without SSE4.2, the same line, end and error as the plain scan to the first control character but tab |
| `HttpParser.ParseLineBreak` | matsko/31_cache_proxy/picohttpparser-master/picohttpparser.c:303-309 | CRLF or a bare line feed |
| `HttpParser.ParseHttpVersion` | matsko/31_cache_proxy/picohttpparser-master/picohttpparser.c:280-296 | `HTTP/1.` and a digit, once nine octets are there |
| `HttpParser.ParseSpaces` | matsko/31_cache_proxy/picohttpparser-master/picohttpparser.c:373-376 | One space or more, up to the first octet that is none |
| `HttpParser.ParseHeaderName` | matsko/31_cache_proxy/picohttpparser-master/picohttpparser.c:318-331 | A non-empty name up to the colon and the blanks after it; the name is in its array entry as soon as the colon is seen, even when the call then fails |
| `HttpParser.ParseHeaderValue` | matsko/31_cache_proxy/picohttpparser-master/picohttpparser.c:336-350 | A line without the blanks that end it |
| `HttpParser.ParseHeader` | matsko/31_cache_proxy/picohttpparser-master/picohttpparser.c:315-350 | One header line, or a continuation line with a null name when it is not the first; a line that fails leaves its entry with the name at most |
| `HttpParser.ParseHeaders` | matsko/31_cache_proxy/picohttpparser-master/picohttpparser.c:298-353 | The header lines up to the blank line, written into the array; one line more than `max_headers` is an error; whatever the answer, which entries are written with what, and that all others are unchanged |
| `HttpParser.ParseRequestLine` | matsko/31_cache_proxy/picohttpparser-master/picohttpparser.c:368-397 | Method, target and version, each handed out once it is read |
| `HttpParser.IsComplete` | matsko/31_cache_proxy/picohttpparser-master/picohttpparser.c:197-223 | The pre-check finds two line breaks in a row, from three octets before the end of the last input on |
| `HttpParser.ReadRequest` | matsko/31_cache_proxy/picohttpparser-master/picohttpparser.c:355-399 | The whole parse: its answer, and the out-parameters and array entries it leaves in every case |
| `HttpParser.PhrParseRequest` | matsko/31_cache_proxy/picohttpparser-master/picohttpparser.c:401-427 | With every combination of SSE4.2 and pre-check the plain parse behind the plain pre-check; on success with its consumed count, fields and headers and nothing else written, otherwise with exactly what had been read by then |
| `HttpParser.ParseStatusCode` | matsko/31_cache_proxy/picohttpparser-master/picohttpparser.c:445-450 | Three digits, once four octets are there; the digits before one that is none stay added up |
| `HttpParser.ParseReason` | matsko/31_cache_proxy/picohttpparser-master/picohttpparser.c:452-469 | The reason phrase without the spaces before it, or nothing; what stands there instead is handed out with the error |
| `HttpParser.ParseStatusLine` | matsko/31_cache_proxy/picohttpparser-master/picohttpparser.c:432-469 | Version, status and reason phrase, each handed out once it is read |
| `HttpParser.ReadResponse` | matsko/31_cache_proxy/picohttpparser-master/picohttpparser.c:429-472 | As for requests |
| `HttpParser.PhrParseResponse` | matsko/31_cache_proxy/picohttpparser-master/picohttpparser.c:474-498 | As for requests |
| `HttpParser.PhrParseHeaders` | matsko/31_cache_proxy/picohttpparser-master/picohttpparser.c:500-519 | As for requests, for a bare header block |
| `HttpOutputs.HeadersComplete` | matsko/31_cache_proxy/picohttpparser-master/picohttpparser.c:298-353 | After success the entries written are the headers, and no further name is left behind them |
| `HttpOutputs.RequestComplete` | matsko/31_cache_proxy/picohttpparser-master/picohttpparser.c:355-399 | After success the out-parameters are the method, target, version and headers of the request |
| `HttpOutputs.ResponseComplete` | matsko/31_cache_proxy/picohttpparser-master/picohttpparser.c:429-472 | The same for responses |
| `HttpOutputs.NameExactly` | matsko/31_cache_proxy/picohttpparser-master/picohttpparser.c:315-335 | Of a line that fails, the null name is written if it continues another, and else the token before its first colon, if that is there |
| `HttpOutputs.HeadersStopAt` | matsko/31_cache_proxy/picohttpparser-master/picohttpparser.c:298-353 | No name is written behind the headers read but that of the line that failed |
| `HttpOutputs.RequestLineFilled` | matsko/31_cache_proxy/picohttpparser-master/picohttpparser.c:368-388 | Method and target are handed out if and only if they have been read, whatever comes after |
| `HttpOutputs.VersionFilled` | matsko/31_cache_proxy/picohttpparser-master/picohttpparser.c:378-388 | So is the version, unless the method is empty |
| `HttpOutputs.StatusLineFilled` | matsko/31_cache_proxy/picohttpparser-master/picohttpparser.c:432-454 | Version, status and phrase of a response are handed out if and only if they have been read |
| `HttpOutputs.StatusFilled` | matsko/31_cache_proxy/picohttpparser-master/picohttpparser.c:445-450 | Of the status, the digits before one that is none |
| `HttpOutputs.WrittenHeadersStay` | matsko/31_cache_proxy/picohttpparser-master/picohttpparser.c:298-353 | The headers that a call on a part of a good header block has written are the first of those of the whole, and the name behind them, if one is written, is that of the next |
| `HttpOutputs.WrittenRequestStays` | matsko/31_cache_proxy/picohttpparser-master/picohttpparser.c:355-399 | Every out-parameter that a call on a part of a good request has filled in has the value that the call on all of it fills in; the others have their initial value |
| `HttpOutputs.WrittenResponseStays` | matsko/31_cache_proxy/picohttpparser-master/picohttpparser.c:429-472 | The same for responses |
| `HttpPrefix.HeadersSettle` | matsko/31_cache_proxy/picohttpparser-master/picohttpparser.c:298-353 | A verdict on header lines is final, and "incomplete" is left only by reading past what was there |
| `HttpPrefix.RequestSettles` | matsko/31_cache_proxy/picohttpparser-master/picohttpparser.c:355-399 | If a prefix of the input is accepted or refused, the whole input gets the same answer, fields and consumed count |
| `HttpPrefix.ResponseSettles` | matsko/31_cache_proxy/picohttpparser-master/picohttpparser.c:429-472 | The same for responses |
| `HttpPrefix.RequestFraming` | matsko/31_cache_proxy/picohttpparser-master/picohttpparser.c:355-399 | Every strict prefix of the consumed octets of a request is incomplete, and what follows them does not matter |
| `HttpPrefix.ResponseFraming` | matsko/31_cache_proxy/picohttpparser-master/picohttpparser.c:429-472 | The same for responses |
| `HttpPreCheck.CompleteFinds` | matsko/31_cache_proxy/picohttpparser-master/picohttpparser.c:197-223 | The pre-check finds a blank line ahead if no carriage return before it is stray |
| `HttpPreCheck.PreCheckExactly` | matsko/31_cache_proxy/picohttpparser-master/picohttpparser.c:197-223 | The pre-check passes if and only if, from three octets before the earlier end on, a blank line follows a line feed with no stray carriage return before; it fails if and only if a stray carriage return comes first, and asks for more if and only if there is neither |
| `HttpPreCheck.CheckedExactly` | matsko/31_cache_proxy/picohttpparser-master/picohttpparser.c:413-424 | A call that has an earlier one answers -1 on a stray carriage return before any blank line, -2 while there is neither, and else what the parse answers |
| `HttpPreCheck.HeadersEnd` | matsko/31_cache_proxy/picohttpparser-master/picohttpparser.c:298-353 | Accepted headers end with a blank line and hold no stray carriage return |
| `HttpPreCheck.RequestPreCheck` | matsko/31_cache_proxy/picohttpparser-master/picohttpparser.c:415-424 | If the input so far was incomplete, the parse behind the pre-check succeeds on every extension exactly when the plain parse does, with the same result |
| `HttpPreCheck.ResponsePreCheck` | matsko/31_cache_proxy/picohttpparser-master/picohttpparser.c:487-496 | The same for responses |
| `HttpPreCheck.HeadersPreCheck` | matsko/31_cache_proxy/picohttpparser-master/picohttpparser.c:509-513 | The same for bare headers, unless the input so far was a lone carriage return |
| `HttpPreCheck.HeadersPreCheckExactly` | matsko/31_cache_proxy/picohttpparser-master/picohttpparser.c:500-519 | For bare headers the pre-check loses nothing on any extension if and only if the input so far was not a lone carriage return |
| `HttpPreCheck.RequestInPieces` | matsko/31_cache_proxy/picohttpparser-master/picohttpparser.c:401-427 | Wherever a request is cut into calls, each told the length at the call before: as long as all calls said "incomplete", the next succeeds exactly when the plain parse of its input does, with the same result; a request that the plain parse accepts is answered "incomplete" until its last octet is there, and then with exactly that result |
| `HttpPreCheck.ResponseInPieces` | matsko/31_cache_proxy/picohttpparser-master/picohttpparser.c:474-498 | The same for responses |
| `HttpPreCheck.HeadersInPieces` | matsko/31_cache_proxy/picohttpparser-master/picohttpparser.c:500-519 | The same for bare headers, when no earlier call had a lone carriage return |
| `HttpGrammar.Characters` | matsko/31_cache_proxy/picohttpparser-master/picohttpparser.c:40-103 | The classes of octets that the scans test, written out: token characters, digits, control characters, blanks, and the line breaks and separators of printed heads |
| `HttpGrammar.HeaderAt` | matsko/31_cache_proxy/picohttpparser-master/picohttpparser.c:298-353 | A printed header line, plain or continued, is read to its end with its name and trimmed value |
| `HttpGrammar.HeadersAt` | matsko/31_cache_proxy/picohttpparser-master/picohttpparser.c:298-353 | At most `max_headers` printed header lines and a blank line are read to the end with all their fields |
| `HttpGrammar.TooManyAt` | matsko/31_cache_proxy/picohttpparser-master/picohttpparser.c:311-314 | One header line more than there is room for is an error |
| `HttpGrammar.RequestRoundTrip` | matsko/31_cache_proxy/picohttpparser-master/picohttpparser.c:355-399 | Any request head with a token method, a target without spaces or control characters, a minor digit and any blanks around its header values, followed by anything, is consumed to its end and yields those fields; with too many headers it is an error |
| `HttpGrammar.HeadersOf` | matsko/31_cache_proxy/picohttpparser-master/picohttpparser.c:298-353 | Whatever header block is accepted is the printed form of at most `max_headers` well-formed header lines |
| `HttpGrammar.RequestOf` | matsko/31_cache_proxy/picohttpparser-master/picohttpparser.c:355-399 | Whatever request is accepted is the printed form of a well-formed head |
| `HttpGrammar.AcceptsExactlyTheGrammar` | matsko/31_cache_proxy/picohttpparser-master/picohttpparser.c:355-399 | A request is accepted if and only if it begins with a printed head of at most `max_headers` headers, and then the consumed count and the fields are those of that head |
| `HttpResponseGrammar.CodeAt` | matsko/31_cache_proxy/picohttpparser-master/picohttpparser.c:445-450 | Three printed digits read as their number |
| `HttpResponseGrammar.ReasonAt` | matsko/31_cache_proxy/picohttpparser-master/picohttpparser.c:452-469 | The reason phrase is returned without the spaces before it |
| `HttpResponseGrammar.ResponseRoundTrip` | matsko/31_cache_proxy/picohttpparser-master/picohttpparser.c:429-472 | Any response head, followed by anything, is consumed to its end and yields its version, status, phrase and headers |
| `HttpResponseGrammar.ResponseOf` | matsko/31_cache_proxy/picohttpparser-master/picohttpparser.c:429-472 | Whatever response is accepted is the printed form of a well-formed head |
| `HttpResponseGrammar.ResponsesAreTheGrammar` | matsko/31_cache_proxy/picohttpparser-master/picohttpparser.c:429-472 | A response is accepted if and only if it begins with a printed head of at most `max_headers` headers, and then the consumed count and the fields are those of that head |
| `HttpCompletion.HeadersCompleted` | matsko/31_cache_proxy/picohttpparser-master/picohttpparser.c:298-353 | Every header block answered with -2 can be completed |
| `HttpCompletion.LateLineFails` | matsko/31_cache_proxy/picohttpparser-master/picohttpparser.c:368-397 | A request line with an empty method, or with something else than a version of which less than nine octets are there, is incomplete at first and refused in the end |
| `HttpCompletion.LateResponseFails` | matsko/31_cache_proxy/picohttpparser-master/picohttpparser.c:432-469 | So is a response line with something else than a version, a status or a reason phrase that has not been looked at yet |
| `HttpCompletion.RequestAnswers` | matsko/31_cache_proxy/picohttpparser-master/picohttpparser.c:355-399 | For every input: success if and only if a request head is there; -1 if and only if no continuation has one and the parser is not late; -2 if and only if none is there and either a continuation has one or the parser is late, never both |
| `HttpCompletion.RequestRefusedForGood` | matsko/31_cache_proxy/picohttpparser-master/picohttpparser.c:401-427 | If the input so far was incomplete and a call behind the pre-check answers -1, no continuation is a request |
| `HttpCompletion.ResponseRefusedForGood` | matsko/31_cache_proxy/picohttpparser-master/picohttpparser.c:474-498 | The same for responses |
| `HttpCompletion.ResponseAnswers` | matsko/31_cache_proxy/picohttpparser-master/picohttpparser.c:429-472 | The same for responses |
| `HttpCompletion.HeadersAnswers` | matsko/31_cache_proxy/picohttpparser-master/picohttpparser.c:298-353 | The same for bare header blocks, where the parser is never late: -2 if and only if some continuation is a block, -1 if and only if none is |
| `WaiterPhilosophers.InitInv` | arkhipov/10/main.c:96-110 | The start satisfies the invariant, for any number of philosophers from two on and any food |
| `WaiterPhilosophers.ActInv` | arkhipov/10/main.c:27-93 | Every action of every philosopher keeps it: tickets and forks are conserved, each fork is held by whoever says so |
| `WaiterPhilosophers.StuckRing` | arkhipov/10/main.c:47-49 | If nobody can act, a ticket holder waits for its right fork, held as its left one by the neighbour, who waits likewise |
| `WaiterPhilosophers.NoDeadlock` | arkhipov/10/main.c:27-93 | In every reachable state somebody can act while anybody is left: a stuck ring would need one ticket more than there is |
| `WaiterPhilosophers.OneHolder` | arkhipov/10/main.c:79-93 | No fork is in two hands |
| `WaiterPhilosophers.ActDecreases` | arkhipov/10/main.c:41-57 | Every action lowers a measure |
| `WaiterPhilosophers.AtRest` | arkhipov/10/main.c:27-76 | When nobody can act everybody has left and all the dishes served have been eaten |
| `WaiterPhilosophers.EveryRun` | arkhipov/10/main.c:27-93 | Every run is short, keeps N-1 tickets, one holder for each fork, and at rest has served exactly FOOD - 1 meals |
| `StatePhilosophers.ActLocal` | tamplon/lab10/fast.c:37-76 | Mode and grant of a philosopher follow from where it is, after any action of anybody |
| `StatePhilosophers.ActInside` | tamplon/lab10/fast.c:45-62 | One philosopher at a time is between `sem_wait(&sem)` and `sem_post(&sem)` |
| `StatePhilosophers.ActApart` | tamplon/lab10/fast.c:37-43 | Neighbours are never both eating |
| `StatePhilosophers.ActHungry` | tamplon/lab10/fast.c:37-62 | Whoever is hungry, and will not be tested by the one inside, has a neighbour eating |
| `StatePhilosophers.ActInv` | tamplon/lab10/fast.c:18-76 | Every action keeps the invariant |
| `StatePhilosophers.NoDeadlock` | tamplon/lab10/fast.c:18-76 | Somebody can act while anybody is left; the lemma names who |
| `StatePhilosophers.ActDecreases` | tamplon/lab10/fast.c:64-76 | Every action lowers a measure |
| `StatePhilosophers.AtRest` | tamplon/lab10/fast.c:18-76 | When nobody can act everybody has left and all the dishes served have been eaten |
| `StatePhilosophers.EveryRunIsSafe` | tamplon/lab10/fast.c:18-76 | In every run: neighbours never eat together, `S[i]` is 1 exactly for the granted who have not woken, and while `sem` is free every hungry philosopher has an eating neighbour |
| `StatePhilosophers.EveryRunEnds` | tamplon/lab10/fast.c:18-76 | Every run is finite and at rest has served exactly FOOD - 1 meals |
| `LinkedQueue.Queue.constructor` | tamplon/lab25/thread_safe_queue.c:14-26 | An empty queue |
| `LinkedQueue.Queue.Push` | tamplon/lab25/thread_safe_queue.c:28-49 | Pushing appends to the sequence the list stands for, although `tail` is stale while the list is empty |
| `LinkedQueue.Queue.Pop` | tamplon/lab25/thread_safe_queue.c:51-73 | Popping takes the first, or answers NULL on the empty queue |
| `BoundedQueue.ActMutex` | tamplon/lab25/myQueue.c:24-101 | The mutex is held by exactly the thread between its lock and unlock |
| `BoundedQueue.ActConservesSlots` | tamplon/lab25/myQueue.c:40-101 | Free slots, stored messages and slots in flight add up to the capacity and the posts of drops |
| `BoundedQueue.ActConservesItems` | tamplon/lab25/myQueue.c:40-101 | Items posted and in flight add up to the stored messages and the posts of drops |
| `BoundedQueue.ActDrop` | tamplon/lab25/myQueue.c:24-30 | `dropped` does not change under a call that has checked it, and every drop posts both semaphores |
| `BoundedQueue.ActOrder` | tamplon/lab25/myQueue.c:56-69 | What was accepted is what was delivered and then what is stored, in order, and message for message what the puts were given, cut to 80 characters |
| `BoundedQueue.ActAnswers` | tamplon/lab25/myQueue.c:40-101 | What the successful puts return, in the order of acceptance, are the lengths of the messages as given, and what the successful gets return the lengths of the messages delivered |
| `BoundedQueue.ActRefuses` | tamplon/lab25/myQueue.c:50-54 | A put or get refuses, returning 0, only when the queue has been dropped |
| `BoundedQueue.PushAndPopSucceed` | tamplon/lab25/myQueue.c:69-88 | Whoever is about to push finds room and whoever is about to pop finds a message |
| `BoundedQueue.EveryRunIsSafe` | tamplon/lab25/myQueue.c:24-101 | In every run of any threads: at most `capacity` messages stored, no pop of an empty list, accepted messages are those given to the puts, whole up to 80 characters and else their first 80, delivered a prefix of accepted, each put returns the uncut length of its message, each get the length of what it delivers, and only a dropped queue refuses |
| `BoundedQueue.EveryCallCounts` | tamplon/lab25/myQueue.c:24-101 | In every run the messages of all put calls are those accepted, those refused and those under way; all gets have delivered, been refused or are under way; and all drops have posted both semaphores or are under way |
| `BoundedQueue.StuckOnlyWhenFullOrEmpty` | tamplon/lab25/myQueue.c:40-101 | Before a drop, when all calls are blocked, puts wait only for room and gets only for messages |
| `BoundedQueue.NoDeadlock` | tamplon/lab25/myQueue.c:40-101 | With a thread in a put and one in a get somebody can act |
| `BoundedQueue.DroppedIsFrozen` | tamplon/lab25/myQueue.c:50-54 | After a drop no message moves any more |
| `BoundedQueue.RunStaysDropped` | tamplon/lab25/myQueue.c:24-101 | Nor in any run that follows |
| `BoundedQueue.NobodyStuckAfterDrop` | tamplon/lab25/myQueue.c:50-54 | After a drop somebody in a call can act: each woken caller posts again what woke it |
| `BoundedQueue.EveryCallReturnsAfterDrop` | tamplon/lab25/myQueue.c:24-101 | After a drop every schedule brings every call back within six actions for each thread |
| `MutexRing.InitInv` | matsko/11_sync_output/main.c:108-126 | The state after the set-up phase satisfies the invariant: mutex 0 with the parent, mutex M - k with child k |
| `MutexRing.BlockedOutOfTurn` | matsko/11_sync_output/main.c:44-54 | A thread that is not next waits for a mutex that another holds |
| `MutexRing.FreeInTurn` | matsko/11_sync_output/main.c:44-54 | The mutex the next thread needs is free |
| `MutexRing.ActInv` | matsko/11_sync_output/main.c:18-60 | Every action of every thread keeps the invariant, and says whose turn is next |
| `MutexRing.NoDeadlock` | matsko/11_sync_output/main.c:18-69 | Somebody can act while anybody is not done; the lemma names who |
| `MutexRing.NamedHolds` | matsko/11_sync_output/main.c:18-42 | `mutex_owner[i] == t` implies that t holds mutex i |
| `MutexRing.CyclicForm` | matsko/11_sync_output/main.c:44-54 | Lines that follow each other round the ring have the thread and number of their place |
| `MutexRing.AllLinesPrinted` | matsko/11_sync_output/main.c:44-60 | At the end each thread has printed all its lines |
| `MutexRing.EveryRunIsSafe` | matsko/11_sync_output/main.c:18-69 | In every interleaving no error-checking lock or unlock fails, because a thread about to lock does not hold the mutex and one about to unlock does, and owner entries are true |
| `MutexRing.EveryRunInOrder` | matsko/11_sync_output/main.c:18-69 | Line g is printed by thread g mod (M - 1), as its line g div (M - 1) + 1 |
| `MutexRing.EveryRunEnds` | matsko/11_sync_output/main.c:18-69 | Every run is finite; at rest all threads are done, all lines printed and all mutexes free |
| `TwoThreadBarrier.ActInv` | arkhipov/11/main.c:15-85 | Every action of either thread keeps the invariant |
| `TwoThreadBarrier.NoDeadlock` | arkhipov/11/main.c:15-85 | One of the two can act until both are done |
| `TwoThreadBarrier.EveryRunIsSafe` | arkhipov/11/main.c:15-85 | No thread leaves round k before both entered it, between rounds each holds just one of mutexes 0 and 1 and they swap them, lines come out 0, 1, 2, ..., and no lock or unlock fails, because a thread about to lock does not hold the mutex and one about to unlock does |
| `TwoThreadBarrier.AtRest` | arkhipov/11/main.c:42-85 | At rest both are done and all lines are printed |
| `TwoThreadBarrier.EveryRunEnds` | arkhipov/11/main.c:15-85 | Every run is finite and ends with all three mutexes free |
| `Texts.Trichotomy` | arkhipov/17/LineListNode.h:9-33 | Of two different texts exactly one comes first |
| `Texts.Transitive` | arkhipov/17/LineListNode.h:9-33 | The order is transitive |
| `Texts.PrefixFirst` | arkhipov/17/LineListNode.h:26-31 | A text comes after its strict prefixes |
| `Texts.FirstDifference` | arkhipov/17/LineListNode.h:9-33 | A text comes first if and only if at the first place where the two differ it ends or has the lesser character |
| `Texts.NeighboursSuffice` | arkhipov/17/LineListNode.h:45-62 | Neighbours in order make a sorted list |
| `Texts.SwapRemovesOne` | Shinkevich/18/lab18.c:104-109 | Swapping two neighbours out of order removes exactly one inversion |
| `Texts.InversionsBound` | Shinkevich/18/lab18.c:97-118 | There are at most n(n-1)/2 inversions |
| `SortedList.CompareStr` | arkhipov/17/LineListNode.h:9-33 | 1, -1 or 0 for first, second or neither being less in the lexicographic order, and 0 only for equal texts |
| `SortedList.SwapWithNext` | arkhipov/17/LineListNode.h:35-43 | Exchanges two neighbouring values and leaves nodes and links; does nothing at the end of the list or for NULL |
| `SortedList.SwapIsStable` | arkhipov/17/LineListNode.h:55-57 | A swap of different texts keeps equal texts in order |
| `SortedList.BubbleProgress` | arkhipov/17/LineListNode.h:54-59 | One comparison carries the greatest line met so far one place on |
| `SortedList.BubbleNext` | arkhipov/17/LineListNode.h:55-57 | The comparison and swap in the list do that, in place |
| `SortedList.StableIsPermutation` | arkhipov/17/LineListNode.h:45-62 | A stable permutation is a permutation |
| `SortedList.StableSortIsUnique` | arkhipov/17/LineListNode.h:45-62 | There is only one sorted stable permutation, so the contract of the sort fixes its result |
| `SortedList.SortList` | arkhipov/17/LineListNode.h:45-62 | Terminates with the values a sorted stable permutation of what they were, nodes and links untouched |
| `ConcurrentSort.ActLocks` | Shinkevich/18/lab18.c:100-114 | Each lock is held by exactly the thread that says so |
| `ConcurrentSort.ActKeepsLines` | Shinkevich/18/lab18.c:37-69 | The multiset of lines changes only by appended lines |
| `ConcurrentSort.ActAccounted` | Shinkevich/18/lab18.c:104-109 | Each swap lowers the inversions by exactly one |
| `ConcurrentSort.EveryRun` | Shinkevich/18/lab18.c:37-122 | In every run of any sorters and appenders: lines are conserved, swaps since the last append are the inversions removed and at most n(n-1)/2, the passes of all sorters that swapped are no more than the swaps and one for each thread, and no node has two lock holders |
| `ConcurrentSort.ActPaced` | Shinkevich/18/lab18.c:97-118 | Each pass that has swapped, ended or under way, accounts for a swap since the last append, but for one for each thread, under way at that append |
| `ConcurrentSort.NoDeadlock` | Shinkevich/18/lab18.c:37-122 | Locks are awaited in list order, so somebody can act; the lemma follows the waits to who |
| `ConcurrentSortPasses.OwnAction` | Shinkevich/18/lab18.c:100-113 | A thread that has not swapped in its pass has behind it no pair out of order but the recorded ones, after any action of its own |
| `ConcurrentSortPasses.AppendOrdered` | Shinkevich/18/lab18.c:53-64 | Linking a line puts no pair out of order behind such a pass, except one behind a thread that had seen the end of the list there |
| `ConcurrentSortPasses.SwapOrdered` | Shinkevich/18/lab18.c:104-109 | A swap by another thread changes the order of no pair behind such a pass but the swapped one and the two beside it |
| `ConcurrentSortPasses.RunOrdered` | Shinkevich/18/lab18.c:37-122 | So in every run, for every thread of any number of sorters and appenders at once, the pairs out of order behind a pass without a swap are exactly the recorded ones |
| `ConcurrentSortPasses.CalmPassMeansSorted` | Shinkevich/18/lab18.c:97-118 | When any of the sorters ends a swap-free pass, the places out of order are exactly its recorded slips, so the list is sorted if and only if there are none; and if no other thread has swapped behind it, slips come only from appends, and the nodes there at the start of the pass are sorted |
| `ConcurrentSortPasses.LoneSorter` | Shinkevich/18/lab18.c:97-118 | With one sorter no pass is ever disturbed by a swap |
| `ConcurrentSortProgress.StepLowers` | Shinkevich/18/lab18.c:90-122 | While nothing is appended every action of a sorter lowers a measure, except the end of a swap-free pass without slips |
| `ConcurrentSortProgress.SortedInTime` | Shinkevich/18/lab18.c:90-122 | From any reachable state with idle appenders, any number of sorters under any schedule reach, within (7n + 3)(t n(n-1)/2 + 2t) actions of the t threads, the end of a swap-free pass on a sorted list, which then stays as it is |
| `ConcurrentSortLines.EveryLineArrives` | Shinkevich/18/lab18.c:37-69 | In every run the lines given to the appenders are those appended and those on their way, and with the lines of the start these make up the list |
| `ConcurrentSortLines.PushesEnd` | Shinkevich/18/lab18.c:37-69 | An appender takes at most 3n + 1 actions for each line it is given, whatever the others do, n being the length of the list at the end |
| `ConcurrentSortEnd.AskedToStop` | Shinkevich/18/lab18.c:84-96 | The sorters are asked to stop if and only if the interrupt has come |
| `ConcurrentSortEnd.StepInGoodHands` | Shinkevich/18/lab18.c:97-118 | While nothing is appended, an unsorted list has a sorter that is about to start a pass, or has swapped in its pass and so will start another, or has all in order behind it |
| `ConcurrentSortEnd.LeftSorted` | Shinkevich/18/lab18.c:93-118 | If some sorter is about to start a pass, or has swapped in its pass, after the last append, then when nobody can act any more all sorters have left and the list is sorted |
| `ConcurrentSortEnd.EveryoneLeaves` | Shinkevich/18/lab18.c:90-122 | After the interrupt, with idle appenders, every schedule has at most (7n + 3)(n(n-1)/2 + t) + (7n + 4)t actions, and at its end all sorters have left |
| `ConcurrentSortEnd.LeftAsItIs` | Shinkevich/18/lab18.c:93-96 | If the interrupt finds all sorters asleep or gone, they leave the list as it is |
| `ConcurrentSortExamples.AppendSlipsIn` | Shinkevich/18/lab18.c:102-113 | A run in which an append between two steps of a lone sorter lets a swap-free pass end on an unsorted list, out of order just there |
| `ConcurrentSortExamples.SwapSlipsIn` | Shinkevich/18/lab18.c:102-113 | A run in which a second sorter swaps right ahead of the first, whose swap-free pass then ends on an unsorted list, though nothing was appended |
| `CacheHash.GetHash` | arkhipov/32/cache.c:20-26 | The loop computes the running remainder of C over the signed characters |
| `CacheHash.PlainHash` | arkhipov/32/cache.c:20-26 | Without negative characters this is the sum of the characters modulo the number of buckets |
| `CacheHash.HashBelowZero` | arkhipov/32/cache.c:20-26 | A character above 127 can make the bucket number negative |
| `CacheHash.HashIsBucketExactly` | arkhipov/32/cache.c:20-26 | For each number of buckets: keys over an alphabet hash to buckets if and only if the alphabet has no negative character or only multiples of that number |
| `CacheHash.HashIsAlwaysBucketExactly` | arkhipov/32/cache.c:20-26 | They do for every number of buckets if and only if the alphabet has no negative character |
| `CacheHash.OnesPastTheCounts` | arkhipov/32/cache.c:8-30 | With more buckets than `bucket_capacity`, the key of that many characters 1 hashes to a bucket that has no count |
| `CacheHash.CountsFitExactly` | arkhipov/32/cache.c:8-41 | Every ASCII key hashes to a bucket that has a count in `buckets_size` if and only if there are no more buckets than `bucket_capacity` |
| `CacheHash.StrEquals` | arkhipov/32/cache.c:48-56 | Decides equality of keys |
| `HashCache.LookupIsMap` | arkhipov/32/cache.c:58-77 | Looking in the one bucket of the hash finds an item if and only if it is stored anywhere under that key |
| `HashCache.InsertIsMapUpdate` | arkhipov/32/cache.c:28-46 | Inserting binds the new key, leaves every other key as it was, and keeps keys unique and in their buckets |
| `HashCache.SurvivorsAre` | arkhipov/32/cache.c:138-151 | A pass keeps an item if and only if it has not expired |
| `HashCache.SurvivorsInOrder` | arkhipov/32/cache.c:138-151 | and keeps them in their order |
| `HashCache.StaysIfFresh` | arkhipov/32/cache.c:140 | A cleaning keeps an item if and only if its last visit is no longer ago than the timeout or it is being filled |
| `HashCache.CleanIsMapRemoval` | arkhipov/32/cache.c:131-156 | Cleaning unbinds exactly the keys of expired items and keeps the table valid |
| `HashCache.SameItemUntilRemoved` | arkhipov/32/cache.c:58-156 | Through any calls in any order, a key keeps the item that it was first given if and only if no cleaning has removed that item, and the table stays valid |
| `HashCache.Append` | arkhipov/32/cache.c:33-44 | Walks to the last node and links a new one behind it |
| `HashCache.FindItem` | arkhipov/32/cache.c:63-77 | The first item of the chain with the key, or NULL |
| `HashCache.Unlink` | arkhipov/32/cache.c:142 | Unlinking a node takes its item out of the sequence the chain stands for |
| `HashCache.Turn` | arkhipov/32/cache.c:138-151 | One turn of the cleaning loop |
| `HashCache.Sweep` | arkhipov/32/cache.c:136-151 | One chain is left with exactly the survivors, its count lowered by as many as were removed, no other count touched |
| `HashCache.Cache.constructor` | arkhipov/32/cache.c:4-18 | An empty table, for any number of buckets and any `bucket_capacity` |
| `HashCache.Cache.InsertCacheItem` | arkhipov/32/cache.c:28-46 | For any item whose key hashes to a bucket with a count: refuses if the bucket is full, else appends the item there; the counts stay the chain lengths, and keys stay unique if the key was not there |
| `HashCache.Cache.GetOrCreateCacheItem` | arkhipov/32/cache.c:58-115 | Returns the stored item for a key it has, with only its time of visit changed; else a new item, bound to the key, or NULL with nothing changed if the bucket is full |
| `HashCache.Cache.TryToCreate` | arkhipov/32/cache.c:82-114 | The second half: a new item bound to a key that is not there, or NULL with nothing changed |
| `HashCache.Cache.KeepsItem` | arkhipov/32/cache.c:58-156 | Between any two moments in the life of a cache, whatever calls come between, a key keeps its item if and only if none of them cleaned it away |
| `HashCache.Cache.CleanBucket` | arkhipov/32/cache.c:135-152 | Cleans one bucket and leaves the others |
| `HashCache.Cache.LookupAndClean` | arkhipov/32/cache.c:131-156 | The table holds exactly the items not expired, or being filled, in order, and the number printed is how many are gone |

## Left out

- HttpParser.FindCharFast: the SSE4.2 instruction is its documented meaning, "the first octet in the ranges", not its bits.
- ChunkedDecoder.PhrChunkedDecoder.DecodeChunked: `size_t` has 64 bits; `_hex_count` is a natural number, since it never passes 16 from the zero-filled start; the assertion on a corrupt state has no counterpart, as the phase is an enumeration.
- BoundedQueue.EveryRunIsSafe: the copy into the caller's buffer is not modelled, nor its cut at `bufsize`; the callers pass 80 octets, the length a stored message can have.
- LinkedQueue.Queue.Pop: freeing the node is not modelled, nor the queue's own mutex, which the bounded queue's mutex already covers.
- MutexRing.InitInv: that every child takes its first mutex within the sleeping time of the set-up is a precondition.
- ConcurrentSort.EveryRun: the list is not empty at the start; locks are fair to nobody, and a run has no bound, because sorters pass over a sorted list for ever.
- HashCache.Cache.GetOrCreateCacheItem: the key must hash to a bucket that has a count, since the C reads and writes outside its arrays for any other; it is a C string of the length given, the clock is a parameter; on a full bucket the C also frees `content`, which it has not set (cache.c:108), and the model has no such field; the locks of a bucket are not modelled, so one call runs at a time.
- HashCache.Cache.LookupAndClean: removal from the chain is modelled, not deallocation; one clock value serves the whole pass.
- CacheHash.GetHash: `int` is unbounded; no sum passes the number of buckets by more than 127, so it matters only for tables within 127 of the largest `int`.
- HashCache.CacheItem: cache.h is not part of this model; an item's status is initial, being filled, or anything else.
- Memory order: the unlocked reads of `next` in the concurrent list, of `ping` in the barrier and of `mutex_owner` in the ring are single atomic actions.
- Mutex and semaphore calls are atomic and succeed, except the error-checking locks of the ring and the barrier, whose failures are counted; allocation succeeds.
- The strings behind lines and messages: `malloc(strlen(line))` without room for the terminator, and freeing, are not modelled.
- Printing is a trace where a property is about it and is left out elsewhere.
- The socket loops of the proxies, the terminal client, URL parsing, name lookup, signals and build files: plumbing with no stated property.
- `phr_decode_chunked_is_in_data`, `printList`, `destroy`, `DeleteCache` and the other teardown code: nothing to prove beyond their bodies.
- The create, join and cancel exercises, sleep sort, the pi sums and the plain two-thread alternations: easier repeats of the protocols above.
- The copies of picohttpparser under matsko/32 and matsko/33 are the same text.
