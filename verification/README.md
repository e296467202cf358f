# Verified model of the HTTP/1.2 server's parsers and shared queue

This project models the parts of the repository that carry state from one call to the next, and
proves what they keep over whole runs.

- **The incremental request parser** (`lib/http/httpparser.cpp` and its C++11 twin). `HttpParser`
  has the class as the source has it, proved against a step function `Append` on a state value;
  the theorems are about runs of that function. The machine is the same text in both files and is
  modelled once, over an arbitrary message parser; `HttpMessage` has the two message parsers,
  `HttpDialects` relates them, `HttpPrint`, `HttpParcels`, `HttpStreams`, `HttpRoundTrip` and
  `HttpQuery` prove that parsing undoes printing and under exactly which chunkings, `HttpRuns` and
  `HttpBodies` prove independence of the chunking, conservation of bytes, and what every queued
  request satisfies, `HttpLengths` decides every declared length, `HttpErrors` says from the text
  that arrives what is a bad request, and `HttpWitnesses` has concrete inputs. The framing that is modelled is that of RFC 9112, sections 2.2, 3, 5, 6.3 and
  9.3.2.
- **The shared-memory vector** (`src/SHMVector.hpp`), three times: `ShmSpec` is a sequence with a
  capacity; `ShmVector` is the class over an array of slots that are live or dead; `ShmThreads`,
  `ShmRuns` and `ShmTheorems` are a transition system of any number of threads in which every step
  touches at most one shared field or slot, once.
- **NLAP framing and the zero-copy tree** (`lib/xml/xmlparser.cpp`). `XmlFraming` has the message
  generator and the driver around it, `XmlTree` the greedy search that points each leaf at its
  text in the raw message.
- **Response text** (`lib/http/httpgenerator.cpp`, `HttpGenerator`) and **in-order release** of
  pipelined results (`ResultOrder`).

`Text` has the string searches and splits they share. Bytes are characters, `npos` is -1, and
integer widths are written out where they matter: the 16-bit narrowing of Content-Length, the
range of `stoi`, the `size_t` products of the vector, the 16-bit counters of the release loop.

## Where the code does not do what one would expect

Each of these is a theorem with the exact condition, and where one is named in brackets also a
lemma at a concrete input.

- A batch of several messages that ends in a POST throws and loses that POST
  (`HttpRoundTrip.BatchCall`; [`HttpWitnesses.FinalPostIsLost`]).
- Messages that come with the end of an awaited body stay unscanned until the next call
  (`HttpStreams.BufferIsScanned`, `HttpRoundTrip.LeftoverWaits`; [`HttpWitnesses.GetIsLeftOver`]).
- An end marker that arrives inside an awaited body is taken for a message end
  (`HttpBodies.AwaitedBody`, `HttpBodies.GetInsideBody`; [`HttpWitnesses.GetTakesTheBody`]).
- A declared length is narrowed to 16 bits before it is compared with the maximum
  (`HttpLengths.PostDecision`, `HttpLengths.DeclaredIsDelivered`; [`HttpLengths.WrappedLength`]).
- A URL that ends in ':' makes the request line a header field (`HttpPrint.FieldsReadBack`;
  [`HttpWitnesses.ColonBecomesHeader`]), and a status text with ": " and more after it does the same
  to the status line (`HttpGenerator.ResponseReadsBack`; [`HttpGenerator.StatusReadAsField`]).
- The two parsers differ on a line with two ": " (`HttpDialects.LineAgreement`,
  `HttpDialects.HeadersAgree`; [`HttpWitnesses.LinesDiffer`]), and, at a concrete input
  only, on a LF without a CR before it ([`HttpWitnesses.BareLineFeed`]).
- doc/SHMVector.rst calls every operation thread-safe; an `eraseAt` out of range leaves the lock
  held for ever (`ShmTheorems.LockLeak`; [`ShmTheorems.EraseLosesLock`]).
- A `reserve` whose product wraps around may raise the capacity beyond the memory
  (`ShmSpec.ReserveWrapsAround`; [`ShmSpec.ReserveBeyondMemory`]).
- An HTTP/1.1 result older than the expected one keeps `getNextRequests` from releasing anything;
  behind an older HTTP/1.2 result it releases out of order (`ResultOrder.ReleaseCondition`,
  `ResultOrder.OlderMakesDisorder`; [`ResultOrder.OlderEntryBlocks`],
  [`ResultOrder.MixedReleasesEarly`]).

One difference is between text and code only: doc/HTTPLib.rst says that `getRequests` returns by
value, and the code returns a reference. The model has the queue as a field.

## Model

| member | source | states |
|---|---|---|
| `HttpRoundTrip.ParseUndoesPrint` | lib/http/httpparser.cpp:24-165 | Parse undoes print under chunking, for both parsers: well-formed GET and POST messages that each fit the buffer, sent to an idle parser in any chunks that do not span two messages, are queued exactly and in order; every call returns and the parser ends idle with an empty buffer |
| `HttpRoundTrip.StreamCondition` | lib/http/httpparser.cpp:24-165 | Parse undoes print under any chunking, exactly: well-formed messages in chunks that may span several of them are queued exactly and in order, with every call returning and the parser idle at the end, if and only if every chunk finds room, no call that waits for nothing completes several header sections of which the last is a POST's, and the last call leaves nothing unscanned; the condition is computed from sizes and methods alone |
| `HttpRoundTrip.BatchCall` | lib/http/httpparser.cpp:64-163 | One call that completes a batch of any mix of GET and POST, possibly followed by a partial message, queues the batch in order with every body cut out of the following piece if and only if it is one message or ends in a GET; otherwise it throws, queues all but the last and leaves its body in the buffer |
| `HttpRoundTrip.LeftoverWaits` | lib/http/httpparser.cpp:33-40 | Messages that come with the end of an awaited body stay in the buffer, whole ones included; the next call, even an empty one, takes them together with what it brings as any batch |
| `HttpStreams.BufferIsScanned` | lib/http/httpparser.cpp:24-52 | After every call that is not refused the buffer holds an end marker if and only if the call completed an awaited body and the bytes after it hold one |
| `HttpStreams.StreamSplits` | lib/http/httpparser.cpp:64-68 | Any prefix of a stream of messages splits into its complete header sections, each with the body before it in front, and the bytes after the last |
| `HttpStreams.CallMoves` | lib/http/httpparser.cpp:24-165 | One call from anywhere in a stream returns if and only if the sizes and methods of the messages say so, and then the stream has moved on as they say, with nothing lost or queued twice |
| `HttpStreams.SeparateIsSmooth` | lib/http/httpparser.cpp:24-165 | Every chunking in which no chunk spans two messages meets that condition |
| `HttpPrint.FieldsReadBack` | lib/http/httpparser.cpp:78-103 | The header map of a printed message is its field list if and only if the URL does not end in ':' or the fields contain the pseudo field such a request line is taken for |
| `HttpPrint.WellFormedReadsBack` | lib/http/httpparser.cpp:78-165 | Every well-formed message is parsed from its header section to the request it stands for, declares its body length, and splits off cleanly after any marker-free body |
| `HttpPrint.BaseReadsBack` | lib/http/httpparser.cpp:167-198 | Method, version and URL of a printed request line are recovered, whatever fields follow |
| `HttpPrint.SectionReadsBack` | lib/http/httpparser.cpp:200-219 | A line followed by printed fields is read, by either header parser, as that line's own field and exactly the printed fields in order |
| `HttpPrint.EntryIsField` | lib/http/httpparser.cpp:205-218 | The C++23 parser reads a field in a line if and only if the line is a non-empty name and a non-empty value around its first ": " |
| `HttpPrint.EntryIsPlainField` | lib/http/httpparser-cpp11.cpp:200-220 | The C++11 parser reads a field in a line if and only if the line is a non-empty name and a non-empty value around its only ": " |
| `HttpQuery.QueryReadsBack` | lib/http/httpparser.cpp:221-246 | The parameters of a URL with a printed query are exactly the printed pairs |
| `HttpQuery.EntryIsPair` | lib/http/httpparser.cpp:234-243 | A pair is a parameter if and only if it has a name before its first "="; the value may be empty |
| `HttpQuery.NoQuery` | lib/http/httpparser.cpp:223-226 | A URL without "?" has no parameters |
| `HttpRuns.ChunkingIndependent` | lib/http/httpparser.cpp:41-76 | Two ways to cut the same stream of acceptable GET requests, no chunk refused, end with the same queue and the same residual buffer |
| `HttpRuns.GetRun` | lib/http/httpparser.cpp:41-76 | The canonical result of such a run: every call returns, the queue is the parse of the stream's pieces and the buffer is what follows the last end marker |
| `HttpRuns.BadCall` | lib/http/httpparser.cpp:64-132 | For any message parser: a call whose batch has acceptable GET requests up to an unacceptable piece queues exactly those before it, sets error 400, drops the rest of the batch and keeps the bytes after the last end marker |
| `HttpErrors.BadRequestCall` | lib/http/httpparser.cpp:64-125 | A bad request, told from its text, is an error whatever it comes with: a call that completes it, after any number of well-formed GETs and before anything else, queues exactly those GETs, sets error 400, drops the rest of the batch and keeps the bytes after the last end marker |
| `HttpErrors.LineDecides` | lib/http/httpparser.cpp:167-198 | A request line of three words is HTTP/1.1 if and only if the last contains "HTTP/1.1", a GET if and only if the first contains "GET", and a POST if and only if it contains "POST" and not "GET"; the word in the middle is the URL |
| `HttpErrors.ForeignLineIsBad` | lib/http/httpparser.cpp:96-100 | A line of three words of another version or method is a bad request |
| `HttpErrors.UnusablePostIsBad` | lib/http/httpparser.cpp:117-132 | A clean printed POST whose fields hold no Content-Length, one with a character that is no digit, or one over the maximum once narrowed, is a bad request |
| `HttpErrors.HeadHasField` | lib/http/httpparser.cpp:200-219 | The headers of a printed message hold, under any name without a space, exactly the field printed, even if the URL ends in ':' |
| `HttpRuns.RefusedIsFull` | lib/http/httpparser.cpp:26-28 | A chunk is refused if and only if it does not fit the buffer, and then nothing changes |
| `HttpRuns.RunConserves` | lib/http/httpparser.cpp:24-165 | After every run, refused chunks and exceptions included, the buffer is a suffix of the accepted bytes within the configured size and the queued payloads are disjoint slices of the bytes before it, in queueing order |
| `HttpRuns.CallConserves` | lib/http/httpparser.cpp:24-52 | One call keeps that conservation property, whichever way it ends |
| `HttpRuns.PiecesConserve` | lib/http/httpparser.cpp:64-163 | The loop over the pieces consumes text from the front: what it consumed followed by the buffer is the text it was given, and each payload it queues is a slice of what it consumed |
| `HttpBodies.RunKeepsInvariant` | lib/http/httpparser.cpp:24-163 | Every run in which no call finds an end marker in a body still awaited keeps: each queued request is an HTTP/1.1 GET without payload or a POST whose payload has its declared length narrowed to 16 bits, at most 2048; and while the parser waits the buffer is shorter than the awaited length |
| `HttpBodies.FreshRun` | lib/http/httpparser.cpp:8-165 | Both of these for every run of either parser from its construction |
| `HttpLengths.PostDecision` | lib/http/httpparser.cpp:115-149 | For a clean printed POST that declares any number n: the call throws if and only if n exceeds the range of `stoi`, sets error 400 if and only if n is in range and over 2048 once narrowed to 16 bits, and otherwise delivers or awaits exactly n mod 65536 bytes |
| `HttpLengths.HugeLengthThrows` | lib/http/httpparser.cpp:127 | A length beyond the range of `stoi` throws, whatever comes after the header section |
| `HttpLengths.ShortNextPiece` | lib/http/httpparser.cpp:151-161 | In a batch, a following piece shorter than the body is error 400: nothing is queued and the rest of the batch dropped |
| `HttpLengths.BodyFromNextPiece` | lib/http/httpparser.cpp:151-158 | In a batch, a following piece that is long enough gives the body from its front, and the loop goes on with what is left of it |
| `HttpLengths.DeclaredIsDelivered` | lib/http/httpparser.cpp:127-149 | A POST is given, or waits for, the body it declares if and only if the declared length is at most 2048 |
| `HttpLengths.WrappedLength` | lib/http/httpparser.cpp:127-142 | Concrete input: a POST that declares 65537 bytes is queued with the one byte that has arrived and without an error |
| `HttpBodies.AwaitedBody` | lib/http/httpparser.cpp:33-50 | The chunks that complete an awaited body deliver exactly that body to the waiting request and leave what comes after it in the buffer if and only if no call before the last finds an end marker in what has arrived |
| `HttpBodies.GetInsideBody` | lib/http/httpparser.cpp:33-50 | What happens otherwise: a GET that arrives inside an awaited body is queued, and the awaited bytes after it are queued as the payload of that GET |
| `HttpBodies.CallKeeps` | lib/http/httpparser.cpp:24-52 | A call never has more payload and buffer bytes than it was given, and has fewer whenever it splits at an end marker |
| `HttpWitnesses.FinalPostIsLost` | lib/http/httpparser.cpp:151-152 | Concrete input: a GET and a POST of one byte in one call throw and queue the GET only |
| `HttpWitnesses.PostWithoutLength` | lib/http/httpparser.cpp:117-120 | Concrete input: a POST without Content-Length and a GET in one call set error 400 and queue nothing |
| `HttpWitnesses.ForeignRequestsAreBad` | lib/http/httpparser.cpp:96-100 | Concrete inputs: a DELETE and an HTTP/1.0 request line are bad requests |
| `HttpWitnesses.GetTakesTheBody` | lib/http/httpparser.cpp:33-50 | Concrete input: a POST that waits for 20 bytes, then a GET, then 20 bytes queue the GET twice, the second time with the 20 bytes as payload |
| `HttpWitnesses.GetIsLeftOver` | lib/http/httpparser.cpp:33-40 | Concrete run: a GET that comes with the end of an awaited body is left whole in the buffer and queued by the next, empty call |
| `HttpWitnesses.ColonBecomesHeader` | lib/http/httpparser.cpp:103 | Concrete input: a request line for "/a:" gives the header "GET /a" |
| `HttpDialects.LockStep` | lib/http/httpparser-cpp11.cpp:23-249 | After any calls whose header sections are agreeable (every LF after a CR, no CR at the end, and each field that only the C++23 parser reads hidden by an earlier one of its name or given again by the first later line to give it) the two parsers have equal buffers, wait states, errors and queues and the calls end alike |
| `HttpDialects.LineAgreement` | lib/http/httpparser-cpp11.cpp:200-220 | The two header parsers make the same field of a line if and only if ": " occurs in it at most once or starts it |
| `HttpWitnesses.LinesDiffer` | lib/http/httpparser-cpp11.cpp:200-220 | Concrete input: of "A: b: c" the C++23 parser makes a field and the C++11 parser none |
| `HttpWitnesses.BareLineFeed` | lib/http/httpparser-cpp11.cpp:200-220 | Concrete input: a bare LF ends a line for the C++23 parser and is part of the value for the C++11 parser |
| `HttpDialects.LinesAgree` | lib/http/httpparser-cpp11.cpp:200-220 | On proper line ends, line reading and destructive splitting give the same lines up to an empty one at the end |
| `HttpDialects.HeadersAgree` | lib/http/httpparser-cpp11.cpp:200-220 | On proper line ends the header maps are equal if and only if each field that only the C++23 parser reads has an earlier field of its name, or is given again by the first later line that gives the C++11 parser a field of its name |
| `HttpParser.HTTPParser.constructor` | lib/http/httpparser.cpp:8-18 | A new parser is idle with an empty buffer and queue |
| `HttpParser.HTTPParser.AppendBuffer` | lib/http/httpparser.cpp:24-52 | The new state and the way the call ends are those of the step function `Append` that the theorems are about |
| `HttpParser.HTTPParser.ProcessRequests` | lib/http/httpparser.cpp:64-76 | Splits the buffer and processes the pieces until one fails, as `ProcessBuffer`; a failure sets error 400 |
| `HttpParser.HTTPParser.ProcessRequestProperties` | lib/http/httpparser.cpp:78-165 | One piece by index: the state, the signal and the next piece, cut if a POST body was taken from it, are those of `ProcessPiece` |
| `HttpParser.HTTPParser.ProcessPostRequest` | lib/http/httpparser.cpp:115-163 | The POST branch, with the narrowing of the declared length and the exceptions of `stoi` and `at`, as `ProcessPost` |
| `HttpParser.ParseRequestProperties` | lib/http/httpparser.cpp:167-198 | The request line from the right, as `ParseBase` |
| `HttpParser.RunConcat` | lib/http/httpparser.cpp:24-52 | A run can be cut anywhere |
| `HttpMessage.ParseBaseAccepts` | lib/http/httpparser.cpp:167-198 | The request line is accepted if and only if it has exactly two spaces |
| `HttpMessage.ParseRequestHeaders23` | lib/http/httpparser.cpp:200-219 | The line loop of the C++23 header parser computes the header map |
| `HttpMessage.ParseRequestHeaders11` | lib/http/httpparser-cpp11.cpp:200-220 | The split-and-rsplit loop of the C++11 header parser computes the header map |
| `HttpMessage.ParseGetParameter` | lib/http/httpparser.cpp:221-246 | Both parsers' parameter loops compute the same map of parameters |
| `HttpMessage.CollectParams` | lib/http/httpparser.cpp:233-244 | The loop over the parameter pairs: of several with one name the first counts |
| `HttpMessage.EmplaceAllKeepsFirst` | lib/http/httpparser.cpp:214-216 | Of several fields with one name the first decides, and no name is lost |
| `HttpMessage.Lines23Cons` | lib/http/httpparser.cpp:203-206 | A line that ends in CRLF is read as itself, whatever follows |
| `HttpMessage.AnyLine` | lib/http/httpparser.cpp:205-206 | Any line is read up to its LF, without a CR before that |
| `Text.Find` | lib/http/httpparser.cpp:46 | The result is the first occurrence, or none exists |
| `Text.RFind` | lib/http/httpparser.hpp:123 | The result is the last occurrence at or before the start, or none exists |
| `Text.Split` | lib/http/httpparser.hpp:100-108 | The destructive loop returns the tokens and leaves the rest |
| `Text.SplitIsInverse` | lib/http/httpparser.hpp:100-108 | Tokens and rest put together again with the delimiter are the input; no token, even with its delimiter, holds an earlier occurrence and the rest holds none |
| `Text.SplitIsUnique` | lib/http/httpparser.hpp:100-108 | Splitting undoes putting together, for every list of such tokens |
| `Text.SplitIsIncremental` | lib/http/httpparser.hpp:100-108 | tokens(a + b) = tokens(a) followed by tokens(rest(a) + b), for every delimiter, self-overlapping ones included |
| `Text.SplitView` | lib/http/httpparser.hpp:92-97 | The non-destructive loop returns the tokens and the rest if it is not empty |
| `Text.SlicesAreUnique` | lib/http/httpparser.hpp:92-97 | Slices put together again are found again, and a rest is a slice if and only if it is not empty |
| `Text.RSplit` | lib/http/httpparser.hpp:110-138 | The backward loop ends for every non-empty delimiter and returns `RSplitResult` |
| `Text.RSplitInvertsJoin` | lib/http/httpparser.hpp:110-138 | If the delimiter occurs in the prefix, joining the reversed result gives the prefix and no token holds the delimiter; if not, the result is one empty string, or the prefix when it is shorter than the delimiter |
| `Text.RTokensCount` | lib/http/httpparser.hpp:110-138 | With a one-character delimiter there is one token more than occurrences |
| `Text.ToStringValue` | lib/http/httpgenerator.cpp:80 | The digits printed for a number read as that number |
| `ShmTheorems.MutualExclusion` | src/SHMVector.hpp:90-301 | In every run of any number of threads at most one is in a critical section, with the flag set, and no step constructs over a live slot or reads or destroys a dead one |
| `ShmTheorems.Linearizable` | src/SHMVector.hpp:90-333 | Every run is equivalent to its logged operations one at a time, with the same results; what has returned is logged, and while the lock is free all that is logged has returned and the live slots hold the sequential result |
| `ShmTheorems.RealTimeOrder` | src/SHMVector.hpp:90-333 | What has returned is logged before everything that takes effect later, so the sequential order respects real time |
| `ShmTheorems.FifoConservation` | src/SHMVector.hpp:129-333 | Whenever the lock is free, the elements popped followed by those present are a subsequence of the pushed ones, and the pushed elements are, with multiplicity, those popped, those present and those the erases removed; with no erasure they are exactly the pushed ones in order |
| `ShmTheorems.CapacityGrows` | src/SHMVector.hpp:90-149 | The capacity never decreases, however a run goes on |
| `ShmTheorems.ReserveIsSound` | src/SHMVector.hpp:90-121 | Every `reserve(n)` that has returned, through the unlocked early return or not, did so normally if and only if n segments fit the memory, and has n within the capacity ever after; at every step the size is within the capacity and the capacity within the memory |
| `ShmTheorems.EveryAnswer` | src/SHMVector.hpp:129-301 | What every operation of every run answers, told from the operations before it: `size` counts pushed less popped and erased, `at`, `getNextElement` and `eraseAt` fail if and only if their index is beyond that, and while nothing is erased the element answered is the one pushed that many places after those popped |
| `ShmTheorems.LockLeak` | src/SHMVector.hpp:260-270 | The lock is lost if and only if an erase out of range has taken effect, and then for good: the vector never changes again and only `reserve` calls that need no lock still return |
| `ShmTheorems.EraseLosesLock` | src/SHMVector.hpp:260-270 | Concrete run: three steps of a thread that erases from an empty vector lose the lock |
| `ShmTheorems.HolderComesOut` | src/SHMVector.hpp:260-333 | The thread inside, left alone, comes out in finitely many steps, and the flag is then clear unless an erase out of range has lost it |
| `ShmRuns.RunKeeps` | src/SHMVector.hpp:90-333 | The invariant behind these, over every run: exclusion, legal log, memory that represents the replayed log at every intermediate step |
| `ShmRuns.StepKeeps` | src/SHMVector.hpp:90-333 | One step of any thread, inside or outside the critical section, keeps it |
| `ShmRuns.PeekIsLegal` | src/SHMVector.hpp:90-93 | The unlocked early return of `reserve` is a whole `reserve`, whoever is inside |
| `ShmThreads.HolderRefines` | src/SHMVector.hpp:129-333 | Every step of the lock holder, one read or write of one shared field or slot, is within slot lifetimes and keeps the memory a representation of the vector; the step that takes effect has the sequential result |
| `ShmThreads.ShiftRefines` | src/SHMVector.hpp:312-333 | The same for the steps of the element-shift loop: loop test, read, construction and destruction each on their own |
| `ShmThreads.GrowRefines` | src/SHMVector.hpp:136-154 | The same for the steps that make room and construct the new element |
| `ShmSpec.ApplyKeepsValid` | src/SHMVector.hpp:90-333 | Every operation keeps size within capacity and capacity within memory, and never shrinks the capacity |
| `ShmSpec.ReserveGrants` | src/SHMVector.hpp:90-121 | Without wrap-around, `reserve` is granted if and only if the capacity is there already or the memory holds that many segments; the capacity is then the larger of the two, and otherwise nothing changes |
| `ShmSpec.PushGrants` | src/SHMVector.hpp:129-158 | `push_back` adds the element at the end, doubling a used-up capacity, if and only if the capacity it needs fits the memory, and otherwise changes nothing |
| `ShmSpec.EraseTakesOut` | src/SHMVector.hpp:312-333 | An erase in range takes out that element and no other; out of range nothing changes |
| `ShmSpec.ReserveWrapsAround` | src/SHMVector.hpp:106-117 | `reserve` keeps capacity within memory if and only if it returns early, its `size_t` product does not wrap around, or the wrapped product is refused |
| `ShmSpec.ReserveBeyondMemory` | src/SHMVector.hpp:106-117 | Concrete input: 2^61 segments of 8 bytes are granted in a memory of 64 bytes |
| `ShmSpec.OrderIsKept` | src/SHMVector.hpp:129-333 | Popped elements followed by present ones are a subsequence of initial and pushed ones, and what is missing is, with multiplicity, exactly the erased elements |
| `ShmSpec.FirstInFirstOut` | src/SHMVector.hpp:129-301 | Without erasure nothing is lost, duplicated or reordered |
| `ShmSpec.CapacityIsPowerOfTwo` | src/SHMVector.hpp:136-149 | On any run without `reserve` the capacity is 0 or a power of two |
| `ShmSpec.GrowthBound` | src/SHMVector.hpp:136-154 | A run of pushes all succeeds if and only if the final size is at most the largest power of two whose segments fit the memory, 0 if none does |
| `ShmSpec.LimitExists` | src/SHMVector.hpp:136-154 | There is a largest power of two of segments that fit, or none fits, for every segment size and memory |
| `ShmSpec.GrowthFromEmpty` | src/SHMVector.hpp:136-154 | Pushing onto a new vector first fails exactly at that bound |
| `ShmSpec.PushLimit` | src/SHMVector.hpp:136-154 | A single `push_back` succeeds if and only if the size is below that bound |
| `ShmSpec.SlotsApart` | src/SHMVector.hpp:338-344 | All slots of a vector occupy disjoint byte ranges if and only if the element fits the segment or there is at most one slot |
| `ShmSpec.SlotInside` | src/SHMVector.hpp:338-344 | An element that fits its segment lies within the memory |
| `ShmVector.SHMVector.Create` | src/SHMVector.hpp:49-65 | Throws exactly on a zero segment size, no memory or no size; otherwise a new vector is empty with capacity 0 |
| `ShmVector.SHMVector.ReserveCount` | src/SHMVector.hpp:90-121 | Refines `Reserve`, for every count, every vector and every capacity the unlocked test may have seen; afterwards the capacity is within the memory if and only if it was and stays, or the product that grants it did not wrap around |
| `ShmVector.SHMVector.PushBack` | src/SHMVector.hpp:129-158 | Refines `Push`: growth, construction in a dead slot, size; or out of memory and unchanged. The construction is within the memory unless the memory is full and a wrapped `reserve` has raised the capacity beyond it |
| `ShmVector.SHMVector.ElementAt` | src/SHMVector.hpp:168-185 | Refines `At`, reading a live slot only |
| `ShmVector.SHMVector.GetSize` | src/SHMVector.hpp:221-233 | Refines `Size` |
| `ShmVector.SHMVector.EraseAt` | src/SHMVector.hpp:260-270 | Refines `Erase`; the lock stays held if and only if the index is out of range |
| `ShmVector.SHMVector.GetNextElement` | src/SHMVector.hpp:280-301 | Refines `Pop` |
| `ShmVector.SHMVector.EraseAtUnlocked` | src/SHMVector.hpp:312-333 | The in-place shift loop yields the sequence without the erased index, constructing only in dead slots and destroying only live ones, whatever the capacity |
| `ShmVector.SHMVector.Dispose` | src/SHMVector.hpp:71-77 | Destroys every element once and leaves no slot live |
| `XmlFraming.FramingRoundTrip` | lib/xml/xmlparser.cpp:88-115 | Messages with bodies free of the end marker, end to end, are framed exactly, after any bytes without start marker and before any that do not begin with a whole message, an unfinished one included; a framing error is found if and only if the next start marker comes after a gap |
| `XmlFraming.FramesOfText` | lib/xml/xmlparser.cpp:88-115 | Concrete inputs: one message, and one followed by a gap and the start of another |
| `XmlFraming.FrameParts` | lib/xml/xmlparser.cpp:88-115 | Every buffer is a prefix without start marker, the framed messages end to end and a rest; each message is a start marker, a body without end marker and an end marker; a framing error is reported if and only if the next start marker after a message comes after a gap, and without one the rest holds no whole message |
| `XmlFraming.FramingIsStable` | lib/xml/xmlparser.cpp:88-115 | More input leaves the messages framed so far, and a framing error found, unchanged |
| `XmlFraming.NextFrame` | lib/xml/xmlparser.cpp:93-113 | One resumption of the generator yields the next frame and where to go on, or says why there is none |
| `XmlFraming.Parse` | lib/xml/xmlparser.cpp:358-395 | With any per-message oracle: the first rejected message decides; else a framing gap; else one result per message in order. Null and oversized input have their own codes |
| `XmlFraming.CStringReadsText` | lib/xml/xmlparser.cpp:367 | A text without NUL is read whole, whether the buffer ends with it or a NUL and anything follow |
| `XmlFraming.ParseReadsBack` | lib/xml/xmlparser.cpp:358-395 | What `parse` returns for messages end to end, ended by a NUL with anything after it: one tree per message if the oracle accepts all, otherwise the code of the first it rejects |
| `XmlFraming.AllOrNothing` | lib/xml/xmlparser.cpp:367-395 | Code 0 if and only if all framed messages are accepted and there is no gap; the results are one per message then and none otherwise |
| `XmlTree.TrimParts` | lib/xml/xmlparser.cpp:46-55 | Trimming takes exactly the spaces, tabs, LFs and CRs off both ends |
| `XmlTree.PopulateTree` | lib/xml/xmlparser.cpp:196-227 | The recursive loop with its running search offset computes `Populate` |
| `XmlTree.BuildTree` | lib/xml/xmlparser.cpp:296-304 | The children of the root from offset 0 |
| `XmlTree.PopulateIsSearch` | lib/xml/xmlparser.cpp:196-227 | The tree is what one search over the leaves in document order finds: the offset moves alike, and every path holds the slice of the last leaf found there or what it held before |
| `XmlTree.LocateIsFirst` | lib/xml/xmlparser.cpp:215-218 | A leaf text is taken at its first occurrence from the offset on, and without any there at its first in the message |
| `XmlTree.SearchGoesOn` | lib/xml/xmlparser.cpp:215-226 | Each leaf is looked for from the end of the last one found, wherever that was found |
| `XmlTree.NoTextNoSlice` | lib/xml/xmlparser.cpp:200-213 | An element with children gets no slice of its own, and one whose text is white space changes nothing |
| `XmlTree.GreedySearch` | lib/xml/xmlparser.cpp:196-227 | The whole-message fallback is never taken if and only if the leaf texts occur in the raw message in document order without overlap; the slices are then such occurrences |
| `XmlTree.TreeSpellsLeaves` | lib/xml/xmlparser.cpp:296-304 | In that case the path of each leaf that no later leaf shares holds the slice found for it, in bounds and spelling its trimmed text |
| `HttpGenerator.GeneratorRoundTrip` | lib/http/httpgenerator.cpp:68-87 | For a clean status text, clean headers without Content-Length, any iteration order and any body length, the header parser recovers exactly the map and the Content-Length, whose digits read as the body length |
| `HttpGenerator.ResponseReadsBack` | lib/http/httpgenerator.cpp:68-87 | For any clean status text: the fields are recovered if and only if no first ": " in it has text after it, or the field this makes is one of the fields; the Content-Length reads as the body length |
| `HttpGenerator.StatusEntry` | lib/http/httpgenerator.cpp:70 | What the header parser makes of a status line is decided by the status text: a field if and only if a ": " in it has text after it |
| `HttpGenerator.StatusReadsBack` | lib/http/httpgenerator.cpp:68-87 | Up to its first CRLF a response reads "HTTP/1.1", digits that read as the code, and the status text; it ends with its first end marker, so that the bytes after it are the body |
| `HttpGenerator.StatusReadAsField` | lib/http/httpgenerator.cpp:70 | Concrete input: the status text "a: b" gives the reader a field that nobody set |
| `HttpGenerator.OrderDoesNotMatter` | lib/http/httpgenerator.cpp:72-78 | The lines written in any order of iteration make up the same map |
| `HttpGenerator.HTTPGenerator.constructor` | lib/http/httpgenerator.cpp:7-12 | Status 200 OK and no headers |
| `HttpGenerator.HTTPGenerator.MsgReset` | lib/http/httpgenerator.cpp:18-29 | Back to status 200 OK with no headers, no body and no header text |
| `HttpGenerator.HTTPGenerator.MsgSetStatus` | lib/http/httpgenerator.cpp:31-35 | Sets the status and nothing else |
| `HttpGenerator.HTTPGenerator.MsgAddHeader` | lib/http/httpgenerator.cpp:47-50 | A header already present keeps its value |
| `HttpGenerator.HTTPGenerator.MsgSetBodyRef` | lib/http/httpgenerator.cpp:61-66 | Sets the body length and nothing else |
| `HttpGenerator.HTTPGenerator.MsgGenerate` | lib/http/httpgenerator.cpp:68-87 | The header length is that of the response text; the method reports whether that fits the 254 bytes of the header buffer, and if it does the buffer holds the text |
| `ResultOrder.ReleaseCondition` | test/eval/ResultOrder/test-result-order-class.cpp:55-69 | For every client: the loop with its 16-bit counters releases the entries of `Released`, and these are the HTTP/1.1 entries of the maximal consecutive run from the expected number on if and only if no older entry is pending, or the run has no HTTP/1.1 entry and either an HTTP/1.1 entry in front blocks the client or no entry matches the counter |
| `ResultOrder.WalkReleases` | test/eval/ResultOrder/test-result-order-class.cpp:55-69 | Despite the wrap-around of its counters, the loop releases exactly the HTTP/1.1 entries that stand as far from the front as their number is from the expected one, or nothing if an HTTP/1.1 entry in front is not the expected one |
| `ResultOrder.ReleasedInOrder` | test/eval/ResultOrder/test-result-order-class.cpp:55-69 | What is released are pending HTTP/1.1 entries in increasing order of their number |
| `ResultOrder.OlderMakesDisorder` | test/eval/ResultOrder/test-result-order-class.cpp:55-69 | With an older entry in front, every entry that is released is ahead of a number from the expected one on that is missing |
| `ResultOrder.PureRelease` | test/eval/ResultOrder/test-result-order-class.cpp:55-69 | For a client with HTTP/1.1 results only, the loop returns the maximal run if and only if no older result is pending or the expected one is not |
| `ResultOrder.RunIsMaximal` | test/eval/ResultOrder/test-result-order-class.cpp:55-69 | That run is, in increasing order and once each, the pending entries of the numbers from the expected one up to the first that is missing |
| `ResultOrder.InOrderRelease` | test/eval/ResultOrder/test-result-order-class.cpp:55-69 | For every client without a result older than the expected one, the loop returns exactly the HTTP/1.1 results of the maximal run from the expected number on, in order |
| `ResultOrder.OlderEntryBlocks` | test/eval/ResultOrder/test-result-order-class.cpp:55-69 | Concrete input: results 0 and 1 with 1 expected release nothing |
| `ResultOrder.MixedReleasesEarly` | test/eval/ResultOrder/test-result-order-class.cpp:55-69 | Concrete input: with an HTTP/1.2 result 0 and an HTTP/1.1 result 2, result 2 is released while 1 is expected |
| `ResultOrder.AppendOrderDoesNotMatter` | test/eval/ResultOrder/test-result-order-class.cpp:14-28 | Appending results with distinct numbers in any order gives the same pending results |
| `ResultOrder.InsertKeepsSorted` | test/eval/ResultOrder/test-result-order-class.cpp:14-28 | An insertion keeps the entries sorted by number and adds the entry exactly when its number is not present |
| `ResultOrder.ResultOrderQueue.Append` | test/eval/ResultOrder/test-result-order-class.cpp:14-28 | Inserts into the client's entries and changes no other client |
| `ResultOrder.ResultOrderQueue.ProcessClients` | test/eval/ResultOrder/test-result-order-class.cpp:30-37 | Every client with pending results and no counter yet expects number 1; no other counter changes |
| `ResultOrder.ResultOrderQueue.GetNextRequests` | test/eval/ResultOrder/test-result-order-class.cpp:39-70 | By request type: the k-th result has the file descriptor and the index of the k-th HTTP/1.2 entry, or of the k-th entry the HTTP/1.1 loop releases, or there is none; a missing client is an exception |
| `ResultOrder.CollectOrdered` | test/eval/ResultOrder/test-result-order-class.cpp:55-69 | The HTTP/1.1 loop with its two counters, as `Walk` |
| `ResultOrder.CollectUnordered` | test/eval/ResultOrder/test-result-order-class.cpp:45-52 | The HTTP/1.2 loop, as `Unordered` |
| `ResultOrder.UnorderedIsFilter` | test/eval/ResultOrder/test-result-order-class.cpp:45-52 | The HTTP/1.2 results are those of exactly the HTTP/1.2 entries, once each and in increasing order of their number |

## Left out

- Sockets, the accept and poll loops, signals, processes and CPU affinity (`Server`, `ClientHandler`, `Client`, `CPU`, `ASProcessHandler`): calls into the operating system.
- Xerces: syntax and DTD validation, grammar pool and entity resolver. `XmlFraming.Parse` takes an arbitrary oracle per message, and the element tree is given.
- `ensureParseableXML` and `getElementText`: text handed to and taken from Xerces; the trimming of the text is modelled.
- `HTTPGenerator::MsgUpdateSendMetadata` and the send state: its completion tests compare after subtracting, so the documented switch at full transmission is not what it does.
- The Date header (clock and locale), the time stamps kept with requests and counters, and the unused request counters.
- `MemoryManager`, `Vector::erase`, `Filesystem`, `Configuration`, the Event library, `URLParamsMap2JSON`, the Python and Java backends, benchmarks and scripts: they would only add easy members.
- References returned by `SHMVector::at` after the lock is released, and the memory order of the flag: the lock is sequentially consistent and `at` gives the value it read.
- The iteration order of the response header map is a parameter of `MsgGenerate`.
- HttpGenerator.HTTPGenerator.MsgGenerate: says nothing of the buffer when the text is too long, because the source then writes past it.
- ShmVector.SHMVector.Create: takes the size of a memory region that exists, hence at most `PTRDIFF_MAX` bytes; then the doubling of `push_back` cannot wrap around.
- ShmVector.SHMVector.PushBack: says nothing of the vector when the element would be constructed outside the memory.
- HttpDialects.LockStep: the condition is exact for header sections with proper line ends (`HttpDialects.HeadersAgree`); of sections with other line ends it is shown only that they can differ (`HttpWitnesses.BareLineFeed`).
- ShmTheorems.Linearizable: assumes of the events only that no `reserve` asks for a product beyond `size_t`; liveness under contention (fairness of the spin lock) is not modelled.
- XmlTree.TreeSpellsLeaves: a leaf whose path a later leaf shares is overwritten, as in the source; `XmlTree.PopulateIsSearch` says by which.
