# Verified models of the tracing demo

Dafny 4.11 models, with proofs, of the four parts of this repository whose behaviour is
hard to see from reading one function. `dafny verify dfyconfig.toml` checks everything.

**The preload tracer** (`roll-dice/preload_tracer.cpp`). The library interposes
`accept`, `read`, `write` and `close`, recognises HTTP requests and responses in raw
buffers, and keeps one live request span per descriptor in a map behind a mutex.
`HttpText` holds the string operations the parsers use; `RequestParsing` and
`ResponseParsing` hold the scanners, written as the loops the source has and proved equal
to declarative readings of the text. `SpanTable` holds the hooks: the class `Preloader`
has the library's globals as fields, and each hook's new state is a function of its old
one. `TracedThreads` runs any number of threads through those hooks. The sections under
the mutex are one step each; the real calls, the parsing and the building of a span are
separate steps, so other threads run in between. `SpanHistory`, `SpanCustody`,
`OpenEntries`, `DescriptorReuse` and `Transparency` prove what holds in every run,
`SpanContents` what every span then says, attribute by attribute, and `SoloHooks` that a
hook's steps with no other thread in between add up to what the class does in one call.
The system calls themselves are moves of the environment: the kernel may give any answer
that an ordinary descriptor table allows, and any call may fail. A `close` that fails on an
open descriptor has released it; where it has not, the descriptor is opened again by the
environment's next move.

**`absl::call_once`** (`absl/base/call_once.h`). `CallOnce` has one program counter per
thread and one step per atomic access. Memory ordering is modelled by what matters to the
caller: whether `fn`'s effects are visible to a thread. An acquire load of a word written
by the release exchange carries them, a relaxed access does not. `SpinLockWait`,
`SpinLockDelay` and `SpinLockWake` are modelled from their contract in
`absl/base/internal/spinlock_wait.h` and the futex calls in `spinlock_linux.inc`; the loop
inside `SpinLockWait` is not in the repository.

**`absl::InlinedVector`** (`absl/container/inlined_vector.h` and its `Storage`).
`VectorElements` has the element loops over slots that may be raw memory, a live object,
or an object whose value was moved out, so that constructing over an object, assigning to
raw memory and destroying twice are precondition failures. `InlinedVectors` has the
vector and the allocator's books. `VectorPools` has any number of vectors sharing one
allocator, and any program over them. What its statements mean is given on plain values: a
vector's elements, the room its storage has, and whether that is a heap block.

**The DNS field macros** (`ares_dns.h`). `DnsFields` has the getters as bit expressions
and the setters as writes to a buffer, and the laws of any sequence of writes to the
header, question and record parts of sections 4.1.1 to 4.1.3 of RFC 1035.

## Where the code and its descriptions differ

- `README-roll-dice.md:201` says a request span starts on the first `read()`. The code
  starts one on every read that looks like a request and overwrites the stored one, on
  which it never calls `End`. Custody has a state `Replaced` for this.
  `SpanHistory.ReplacementIsExact` and `SpanCustody.EverySpanEnds` say exactly when it
  happens, and `SoloHooks.SecondRequestReplaces` that any two requests read in turn on one
  connection make it happen.
- `preload_tracer.cpp:216` describes the gate as "METHOD /path HTTP/x.x". The version
  may in fact stand anywhere in the buffer (`RequestParsing.VersionMayBeAnywhere`), and
  "HTTP/2" is accepted too; `RequestParsing.GateIsExact` gives the exact condition.
- `README-roll-dice.md:213` speaks of Error for 5xx and line 201 of 4xx/5xx. The code, and
  `SpanCustody.VerdictIsTheWrites`, mark every parsed code of 400 or more.
- A response with a negative number or none would be expected to record no status. The code
  records 0 for "-0" (`ResponseParsing.NegativeNumbers`), and takes the number from a later
  line if the status line ends before one, because `strtol` skips line ends
  (`ResponseParsing.LaterLineIsTaken`). `ResponseParsing.StatusIsExact` is the exact
  condition.
- `strtol` is given no end of buffer. A buffer's status depends on the memory after it exactly
  when `strtol` is called, reaches the end of the buffer still reading, and has by then read
  no number yet or one that would be recorded (`ResponseParsing.BufferDecides`).
- An entry of the span table may outlive its connection, and then describes the next one
  that gets the descriptor number. In every run, no entry is ever left behind by a close of
  its descriptor that came after the read it was made from, exactly when no read stores its
  span after such a close, whether or not the number has been handed out again, and no
  real `close` completes after a read has stored a span since the entry was removed
  (`DescriptorReuse.FreshIsExact`). Both happen, for every request: the first in
  `DescriptorReuse.StaleEntry`, the second in `DescriptorReuse.EntryOutlivesClose`. Neither
  can where no descriptor is read and closed at once (`DescriptorReuse.EntriesAreOpen`).
- The DNS flag setters OR. Setting a flag field takes effect exactly when every bit
  already set in it is wanted (`DnsFields.FlagSetIsExact`); the count setters overwrite.

## Model

| member | source | states |
|---|---|---|
| `CallOnce.RunInv` | otel-cpp/install/include/absl/base/call_once.h:145-214 | In every interleaving of any number of callers the control word, the one runner, each thread's position and the visibility of fn's effects stay consistent |
| `CallOnce.WordAdvances` | otel-cpp/install/include/absl/base/call_once.h:162-184 | Every step of every run leaves the word or moves it Init to Running, Running to Waiter, or Running or Waiter to Done; the counts of fn's starts and ends never fall |
| `CallOnce.OnlyOnce` | otel-cpp/install/include/absl/base/call_once.h:150-184 | fn starts at most once and ends at most once, the debug check never fires, Done means fn has completed, and a caller that has returned sees its effects |
| `CallOnce.OneRunner` | otel-cpp/install/include/absl/base/call_once.h:174-184 | Two threads are never both between winning the word and publishing |
| `CallOnce.FastPathRefinesSlowPath` | otel-cpp/install/include/absl/base/call_once.h:206-214 | With the word at Done, skipping CallOnceImpl gives the very state that going through it gives |
| `CallOnce.LateCaller` | otel-cpp/install/include/absl/base/call_once.h:194-196 | For every choice of orderings there is a run in which thread 1 makes its first load right after thread 0 has published and returned, and returns seeing fn's effects exactly when that load acquires and the exchange releases |
| `CallOnce.WaitingCaller` | otel-cpp/install/include/absl/base/call_once.h:174-181 | For every choice of orderings there is a run in which thread 1 is about to load the word inside SpinLockWait when thread 0 makes the exchange, and returns seeing fn's effects exactly when that load acquires and the exchange releases |
| `CallOnce.OrdersAreExact` | otel-cpp/install/include/absl/base/call_once.h:170-181 | No caller of any run returns before fn's effects are visible to it if and only if the orderings are the ones the source has: acquire, acquire, release |
| `CallOnce.NoLostWakeup` | otel-cpp/install/include/absl/base/call_once.h:180-184 | A parked thread implies a runner that can move, and either the word is still Waiter or that runner is about to call SpinLockWake |
| `CallOnce.StuckMeansDone` | otel-cpp/install/include/absl/base/call_once.h:162-185 | A state where no thread can move is one where fn ran exactly once and every caller has returned seeing its effects |
| `CallOnce.StepMakesProgress` | otel-cpp/install/include/absl/base/call_once.h:162-184 | Every step of a thread that can move lowers a measure made of the word changes still to come and each thread's distance to its next one |
| `CallOnce.RouseCosts` | otel-cpp/install/include/absl/base/internal/spinlock_wait.h:54-59 | A delay that returns early raises that measure by at most three |
| `CallOnce.RunIsBounded` | otel-cpp/install/include/absl/base/call_once.h:162-184 | Over a whole run, steps taken plus the measure left are at most the measure at the start plus three for each early return |
| `CallOnce.CallersFinish` | otel-cpp/install/include/absl/base/call_once.h:145-214 | n callers take at most 40n + 4 steps in all, plus three for every early return from a delay |
| `HttpText.Find` | roll-dice/preload_tracer.cpp:75-80 | The first match at or after the offset, and none means there is no match |
| `HttpText.LowerIffSameName` | roll-dice/preload_tracer.cpp:88-101 | Lowercasing both gives equal strings exactly when the names match letter by letter ignoring ASCII case |
| `HttpText.LettersAreLowered` | roll-dice/preload_tracer.cpp:88 | Exactly the 26 capital letters change, each to its small letter |
| `HttpText.LowerInPlace` | roll-dice/preload_tracer.cpp:88 | The loop over the characters lowercases exactly the ASCII letters |
| `HttpText.BlanksByCode` | roll-dice/preload_tracer.cpp:67 | Blanks are the characters 9 to 13 and 32, as for isspace in the C locale |
| `RequestParsing.EraseLeadingSpaces` | roll-dice/preload_tracer.cpp:87 | What is left is the end of the text, everything gone is a space, and no space is first |
| `RequestParsing.StoreLine` | roll-dice/preload_tracer.cpp:83-90 | One header line stores its lowercased name with its trimmed value, replacing an earlier one, or does nothing without a colon |
| `RequestParsing.ScanTurn` | roll-dice/preload_tracer.cpp:79-92 | One turn of the moving scan stops at an empty line and otherwise folds in one line and goes to the one after it |
| `RequestParsing.ParseRequestHeaders` | roll-dice/preload_tracer.cpp:74-93 | On every string the scan ends with the fold over the CRLF-separated lines between the first CRLF and the first empty line |
| `RequestParsing.HeadersRoundTrip` | roll-dice/preload_tracer.cpp:74-93 | Printing any request line, block of header lines and body and parsing it gives the map its fields denote, with any number of spaces after a colon and any lines without a colon in between (section 5 of RFC 9112) |
| `RequestParsing.HeadersCutShort` | roll-dice/preload_tracer.cpp:76-92 | A request cut off after a header line, inside one, or before its first CRLF gives the fields read so far, the unfinished line's included |
| `RequestParsing.LineFieldIsExact` | roll-dice/preload_tracer.cpp:83-87 | A line is read as name and value if and only if it is the name without a colon, a colon, spaces, and a value not starting with one |
| `RequestParsing.NoFieldIsExact` | roll-dice/preload_tracer.cpp:83-84 | A line gives no field if and only if it has no colon |
| `RequestParsing.NamedIsCollected` | roll-dice/preload_tracer.cpp:88-89 | A key is present if and only if some field has that name in lower case |
| `RequestParsing.LastFieldWins` | roll-dice/preload_tracer.cpp:88-89 | The value under a key is that of the last field of that name |
| `RequestParsing.BodyIsIgnored` | roll-dice/preload_tracer.cpp:79-92 | Whatever follows any CRLFCRLF of the buffer, the map is the same |
| `RequestParsing.Get` | roll-dice/preload_tracer.cpp:98-105 | Looks the lowercased key up, and answers "" without a match or without a map |
| `RequestParsing.LookupIsLastMatch` | roll-dice/preload_tracer.cpp:79-105 | Over any list of lines, lookup in the folded map is a scan for the last line whose name matches ignoring case |
| `RequestParsing.GetScansLines` | roll-dice/preload_tracer.cpp:76-105 | For every buffer and key in any case, Get answers what a scan of the header lines for the last case-insensitive match would (section 5.1 of RFC 9110) |
| `RequestParsing.ParseRequestLine` | roll-dice/preload_tracer.cpp:63-70 | The method and path are the first two words, the path cut at its first question mark |
| `RequestParsing.SpelledOutIsRead` | roll-dice/preload_tracer.cpp:63-70 | Blanks, m, blanks, p, a query, then a blank or the end is read as method m and path p |
| `RequestParsing.ReadIsSpelledOut` | roll-dice/preload_tracer.cpp:63-70 | Whatever is read as a method and a path is spelled out that way |
| `RequestParsing.GateIsExact` | roll-dice/preload_tracer.cpp:210-218 | A buffer starts a span with method m and path p if and only if its first line spells out m and p, p starts with '/', and "HTTP/1." or "HTTP/2" is somewhere in it |
| `RequestParsing.FirstLineIs` | roll-dice/preload_tracer.cpp:211-212 | The first line ends at the first CRLF, or with the buffer if there is none |
| `RequestParsing.GateWithoutCrlf` | roll-dice/preload_tracer.cpp:211-218 | For a buffer without a CRLF the gate's exact condition is about the whole buffer |
| `RequestParsing.StoredPathIsClean` | roll-dice/preload_tracer.cpp:63-70 | A stored method and path are non-empty and without blanks, and the path starts with '/' and has no '?' |
| `RequestParsing.WellFormedRequestPasses` | roll-dice/preload_tracer.cpp:210-218 | Every "m p[?q] HTTP/1.x" CRLF anything passes with exactly m and p (section 3 of RFC 9112) |
| `RequestParsing.VersionMayBeAnywhere` | roll-dice/preload_tracer.cpp:216-218 | A first line with no version passes when "HTTP/1." is anywhere later in the buffer |
| `ResponseParsing.ConvertDigits` | roll-dice/preload_tracer.cpp:117 | strtol's digits give their decimal value clamped to the range of long |
| `ResponseParsing.DigitsAreDecimal` | roll-dice/preload_tracer.cpp:117 | The ten digit characters count from zero and each further one makes ten times the value and its own |
| `ResponseParsing.ParseResponseStatus` | roll-dice/preload_tracer.cpp:110-121 | Succeeds with exactly the code the declarative reading of the buffer gives |
| `ResponseParsing.StatusIsExact` | roll-dice/preload_tracer.cpp:110-121 | Code c is recorded if and only if the buffer reads HTTP/1., any character, blanks, perhaps a sign, and a whole run of digits denoting c, with 0 <= c <= 999 |
| `ResponseParsing.SpelledStatus` | roll-dice/preload_tracer.cpp:110-121 | Any response spelled so records its number, or nothing when that is outside 0 to 999 |
| `ResponseParsing.StatusRoundTrip` | roll-dice/preload_tracer.cpp:110-121 | For every code 0 to 999, "HTTP/1." any character, a space, its three digits, then a non-digit and any tail parses to that code (section 4 of RFC 9112) |
| `ResponseParsing.NegativeNumbers` | roll-dice/preload_tracer.cpp:117-118 | A negative number records nothing unless it is zero |
| `ResponseParsing.LaterLineIsTaken` | roll-dice/preload_tracer.cpp:113-118 | A status line that ends before a number takes the number of a later line |
| `ResponseParsing.BufferDecides` | roll-dice/preload_tracer.cpp:110-121 | A buffer's status is the same whatever lies after it in memory if and only if it does not end while strtol is still reading with no number yet or one that would be recorded |
| `ResponseParsing.StatusReadsOn` | roll-dice/preload_tracer.cpp:117-118 | Every buffer that does end so has one continuation in memory that records a status and one that does not |
| `ResponseParsing.StatusIgnoresWhatFollows` | roll-dice/preload_tracer.cpp:110-121 | Unless the buffer runs out so, whatever follows it in memory can be exchanged without changing the status |
| `ResponseParsing.StatusReadsPastTheBuffer` | roll-dice/preload_tracer.cpp:117 | An instance: the twelve characters of a 200 response line are 200 or nothing, depending on the next byte |
| `SpanTable.Preloader.EndSpanForFd` | roll-dice/preload_tracer.cpp:124-131 | Ends the span stored under the descriptor, if any, and removes the entry; nothing else changes |
| `SpanTable.Preloader.Accept` | roll-dice/preload_tracer.cpp:183-199 | One real accept with the same argument, its answer returned, and one finished span exactly when it succeeded and tracing is on |
| `SpanTable.Preloader.HttpLike` | roll-dice/preload_tracer.cpp:210-218 | The gate's verdict with the method and path |
| `SpanTable.Preloader.RecordHeader` | roll-dice/preload_tracer.cpp:241-246 | One header attribute exactly when the header is there and not empty |
| `SpanTable.Preloader.StartRequestSpan` | roll-dice/preload_tracer.cpp:219-247 | A new span with the operations of a request, in order; what those say is stated in SpanContents |
| `SpanTable.Preloader.Read` | roll-dice/preload_tracer.cpp:202-255 | One real read, its answer returned; a new span stored under the descriptor exactly for data that passes the gate with tracing on |
| `SpanTable.Preloader.Write` | roll-dice/preload_tracer.cpp:258-281 | One real write, its answer returned; a positive write ends the stored span after recording the status its buffer carries |
| `SpanTable.Preloader.Close` | roll-dice/preload_tracer.cpp:284-288 | The stored span is ended and removed, then one real close whose answer is returned |
| `TracedThreads.ApplyInv` | roll-dice/preload_tracer.cpp:124-288 | Every move of every thread keeps each span's custody, its complete list of operations and each thread's place in a hook consistent |
| `TracedThreads.Reached` | roll-dice/preload_tracer.cpp:124-288 | Every state any run of n threads reaches satisfies that invariant |
| `SpanHistory.TableIsHistory` | roll-dice/preload_tracer.cpp:249-279 | In every run a descriptor is in the table if and only if the last of the stores, writes and closes on it was a store, and the entry carries that read's method and path |
| `SpanHistory.EventsFindTheLastStore` | roll-dice/preload_tracer.cpp:249-279 | What a write or close ends, and a store replaces, is exactly the span of the store that came last on that descriptor |
| `SpanHistory.OtherDescriptorsUntouched` | roll-dice/preload_tracer.cpp:249-279 | A step on one descriptor never changes another one's entry |
| `SpanHistory.ReplacementIsExact` | roll-dice/preload_tracer.cpp:250-251 | No span is ever replaced if and only if between any two stores on one descriptor there is a write or a close on it |
| `SpanCustody.CustodyIsExclusive` | roll-dice/preload_tracer.cpp:124-131 | In every interleaving each request span is in exactly one of: held by a read, stored, ended, replaced |
| `SpanCustody.CustodyIsUnshared` | roll-dice/preload_tracer.cpp:249-251 | No two threads hold one span and no two descriptors store it |
| `SpanCustody.EndedByCustody` | roll-dice/preload_tracer.cpp:264-278 | A span has ended exactly when a write or a close took it, and End is its last operation |
| `SpanCustody.NothingAfterEnd` | roll-dice/preload_tracer.cpp:264-278 | In every run End is called at most once on a span and nothing is done to it after |
| `SpanCustody.VerdictIsTheWrites` | roll-dice/preload_tracer.cpp:263-278 | A span is Error exactly when the write that ended it carried a code of 400 or more, and Ok exactly when it carried a smaller one |
| `SpanCustody.SpansAreConserved` | roll-dice/preload_tracer.cpp:202-288 | In every run, spans started = ended by write + ended by close + replaced + in the table + in flight |
| `SpanCustody.EverySpanEnds` | roll-dice/preload_tracer.cpp:202-288 | Once everything is closed the table is empty, and every span was ended if and only if no descriptor saw two stores without a write or close between them |
| `SpanContents.SpansSayWhatWasRead` | roll-dice/preload_tracer.cpp:219-247 | In every run each request span is named "m p" for the method and path its request line spells out, and once described carries under their keys method, path, length read, server address and port, and the last user-agent and x-request-id headers when not empty, of what the real read delivered |
| `SpanContents.SpansSayWhatWasWritten` | roll-dice/preload_tracer.cpp:263-270 | In every run each span carries the status code and size of the write that ended it if that had a status, and neither otherwise |
| `SpanContents.ErrorsSayTheCode` | roll-dice/preload_tracer.cpp:271-272 | Every error verdict reads "HTTP " and that code in decimal |
| `SpanContents.EndedByRealWrite` | roll-dice/preload_tracer.cpp:262-276 | A span ended by a write was ended by a real, positive write on the descriptor it was read from |
| `SpanContents.RequestByKey` | roll-dice/preload_tracer.cpp:235-247 | Under every key there is, what a read records |
| `SpanContents.ResponseByKey` | roll-dice/preload_tracer.cpp:268-275 | Under every key there is, what a write records |
| `SpanContents.DecimalValue` | roll-dice/preload_tracer.cpp:272 | The decimal digits printed for a number denote it |
| `SpanContents.AcceptByKey` | roll-dice/preload_tracer.cpp:191-196 | The span of an accepted connection carries address, port and descriptor under their keys, the event with the descriptor in decimal, and ends last |
| `SpanContents.NothingWithoutTracer` | roll-dice/preload_tracer.cpp:207 | Without a tracer no run records anything |
| `SoloHooks.SecondRequestReplaces` | roll-dice/preload_tracer.cpp:250-251 | Any two requests read in turn on one connection, which is then closed: the first one's span is replaced and never ended though everything is closed |
| `SoloHooks.SoloRead` | roll-dice/preload_tracer.cpp:202-255 | The steps of a read with no other thread in between do to the table, the log and the world what Preloader.Read does in one call |
| `SoloHooks.SoloWrite` | roll-dice/preload_tracer.cpp:258-281 | The steps of a write alone do what Preloader.Write does in one call |
| `SoloHooks.SoloClose` | roll-dice/preload_tracer.cpp:284-288 | The steps of a close alone do what Preloader.Close does in one call |
| `SoloHooks.SoloAccept` | roll-dice/preload_tracer.cpp:183-199 | The steps of an accept alone do what Preloader.Accept does in one call |
| `DescriptorReuse.FreshIsExact` | roll-dice/preload_tracer.cpp:183-288 | In every run, no entry ever has a close of its descriptor completed after the read that made it if and only if no read stores after such a close and no close completes after a store that followed its removal of the entry |
| `DescriptorReuse.FreshIsOpen` | roll-dice/preload_tracer.cpp:249-251 | An entry not closed since its read belongs to an open descriptor |
| `OpenEntries.OpenIsExact` | roll-dice/preload_tracer.cpp:183-288 | In every run, every entry belongs to a descriptor open at that moment, whichever connection has it, if and only if no read stores under a descriptor closed at that moment and no close completes after a later store |
| `DescriptorReuse.EntriesAreOpen` | roll-dice/preload_tracer.cpp:183-288 | If no descriptor is read and closed at once, no entry outlives its connection, every entry belongs to an open descriptor and no number accept may hand out has one; everything else may overlap |
| `DescriptorReuse.StaleEntry` | roll-dice/preload_tracer.cpp:249-251 | For every request there is a run whose last move stores its span after its descriptor was closed and handed out again: an entry that has outlived its connection, under an open descriptor |
| `DescriptorReuse.EntryOutlivesClose` | roll-dice/preload_tracer.cpp:284-288 | For every request there is a run whose store falls between a close's removal of the entry and its real close, which leaves the entry behind under a closed descriptor |
| `DescriptorReuse.StoreUnderClosed` | roll-dice/preload_tracer.cpp:249-251 | For every request there is a run whose last move stores its span under a descriptor closed at that moment |
| `Transparency.RunSimulates` | roll-dice/preload_tracer.cpp:183-288 | Seen from outside, every run of the hooked program is a run of the program without hooks: same real calls, arguments, data and returned values |
| `Transparency.WorkGetsOut` | roll-dice/preload_tracer.cpp:183-288 | A hook's own steps bring it to the kernel or to its return, and there are finitely many |
| `Transparency.Follow` | roll-dice/preload_tracer.cpp:183-288 | Every run of the program without hooks can be followed step by step by the hooked one |
| `Transparency.HooksAreTransparent` | roll-dice/preload_tracer.cpp:183-288 | With tracing on or off, the hooked program can show exactly what the program without hooks can show |
| `VectorElements.ConstructElements` | otel-cpp/install/include/absl/container/internal/inlined_vector.h:142-153 | Begins the objects in order in vacant slots and touches no other slot |
| `VectorElements.AssignElements` | otel-cpp/install/include/absl/container/internal/inlined_vector.h:155-161 | Gives existing objects their new values and touches no other slot |
| `VectorElements.DestroyElements` | otel-cpp/install/include/absl/container/internal/inlined_vector.h:102-119 | Ends exactly the objects of the range |
| `VectorElements.OpenGap` | otel-cpp/install/include/absl/container/internal/inlined_vector.h:679-716 | Moves the tail up by the inserted count, constructing past the old end and assigning before it, although source and destination overlap |
| `VectorElements.InsertInPlace` | otel-cpp/install/include/absl/container/internal/inlined_vector.h:679-724 | Old prefix, new values, old suffix, every slot assigned or constructed as it should be |
| `VectorElements.EraseInPlace` | otel-cpp/install/include/absl/container/internal/inlined_vector.h:785-802 | Prefix and suffix close up and exactly the left-over objects are destroyed |
| `VectorElements.Relocate` | otel-cpp/install/include/absl/container/internal/inlined_vector.h:661-669 | The new block holds prefix, new values and suffix, and the old one holds no object |
| `VectorElements.AssignInPlace` | otel-cpp/install/include/absl/container/internal/inlined_vector.h:560-584 | The slots hold exactly the given values whichever is longer |
| `VectorElements.SwapElements` | otel-cpp/install/include/absl/container/internal/inlined_vector.h:889-908 | The elements of two inlined buffers change places whatever their counts |
| `InlinedVectors.Heap.Deallocate` | otel-cpp/install/include/absl/container/internal/inlined_vector.h:136-139 | Only a block still held and holding no object can be given back, so never twice |
| `InlinedVectors.InlinedVector.SetInlinedSize` | otel-cpp/install/include/absl/container/internal/inlined_vector.h:423-425 | Sets the size and clears the allocated bit |
| `InlinedVectors.InlinedVector.SetAllocatedSize` | otel-cpp/install/include/absl/container/internal/inlined_vector.h:419-421 | Sets the size and the allocated bit |
| `InlinedVectors.InlinedVector.SetSize` | otel-cpp/install/include/absl/container/internal/inlined_vector.h:414-417 | Sets the size and keeps the allocated bit |
| `InlinedVectors.InlinedVector.GrownCapacity` | otel-cpp/install/include/absl/container/internal/inlined_vector.h:300-307 | The larger of what is needed and twice what there was |
| `InlinedVectors.Grown` | otel-cpp/install/include/absl/container/internal/inlined_vector.h:300-307 | The larger of what is needed and twice what there was |
| `InlinedVectors.Doubled` | otel-cpp/install/include/absl/container/internal/inlined_vector.h:755 | Doubling until n fits: enough, and less than twice n unless it was enough before |
| `InlinedVectors.OneMoreHeld` | otel-cpp/install/include/absl/container/internal/inlined_vector.h:733-745 | One element more is either in the room there is or one doubling more |
| `InlinedVectors.InlinedVector.Insert` | otel-cpp/install/include/absl/container/internal/inlined_vector.h:640-729 | Old prefix, inserted values, old suffix; in place when they fit, in a block of the grown capacity when they do not, and the outgrown block given back |
| `InlinedVectors.InlinedVector.EmplaceBack` | otel-cpp/install/include/absl/container/internal/inlined_vector.h:733-780 | The old elements and one more; in place if and only if there was room, else in a block of twice the capacity |
| `InlinedVectors.InlinedVector.Erase` | otel-cpp/install/include/absl/container/inlined_vector.h:718-728 | Exactly the range disappears and the storage stays |
| `InlinedVectors.InlinedVector.Assign` | otel-cpp/install/include/absl/container/internal/inlined_vector.h:554-593 | Exactly the given values; in place when they fit, in a block of the grown capacity when they do not |
| `InlinedVectors.InlinedVector.Clear` | otel-cpp/install/include/absl/container/inlined_vector.h:734-740 | Empty, inlined, and the block given back |
| `InlinedVectors.InlinedVector.MemcpyFrom` | otel-cpp/install/include/absl/container/internal/inlined_vector.h:442-448 | A byte copy of size, allocated bit and storage |
| `InlinedVectors.InlinedVector.Copy` | otel-cpp/install/include/absl/container/inlined_vector.h:174-184 | A vector with the same elements and no block in common with the original, which is unchanged; it has a block exactly if the original has one and is not empty |
| `InlinedVectors.InlinedVector.InitFrom` | otel-cpp/install/include/absl/container/internal/inlined_vector.h:491-518 | The same for storage just constructed, allocating exactly when the original is allocated |
| `InlinedVectors.InlinedVector.Move` | otel-cpp/install/include/absl/container/inlined_vector.h:200-224 | Takes exactly the source's elements and its block without allocating; the source is left empty, or full of moved-from objects if it was inlined and not trivial |
| `InlinedVectors.InlinedVector.TakeStorage` | otel-cpp/install/include/absl/container/inlined_vector.h:487-493 | Own elements and block are given up first, then the source's storage changes owner |
| `InlinedVectors.InlinedVector.TakeElements` | otel-cpp/install/include/absl/container/inlined_vector.h:495-497 | Exactly the source's old elements, moved one by one, the source keeping as many objects with their values gone |
| `InlinedVectors.InlinedVector.MoveAssign` | otel-cpp/install/include/absl/container/inlined_vector.h:485-502 | The source's old elements; the source left empty, or full of moved-from objects if it was inlined and not trivial; no block in common, none lost, none given back twice; moving to itself changes nothing |
| `InlinedVectors.InlinedVector.Swap` | otel-cpp/install/include/absl/container/internal/inlined_vector.h:882-942 | Contents and blocks change places in each of the four inlined and allocated cases |
| `InlinedVectors.InlinedVector.OverwriteInput` | otel-cpp/install/include/absl/container/inlined_vector.h:535-538 | The loop overwrites until the vector or the input ends and loses no input element |
| `InlinedVectors.InlinedVector.AppendInput` | otel-cpp/install/include/absl/container/inlined_vector.h:541 | Copying into a back inserter appends all the remaining input, the storage doubling each time it is full and only then |
| `InlinedVectors.InlinedVector.AssignInput` | otel-cpp/install/include/absl/container/inlined_vector.h:534-542 | Single-pass assign yields exactly the input, whichever of it and the old contents is longer, in storage doubled as often as needed |
| `InlinedVectors.InlinedVector.InsertInput` | otel-cpp/install/include/absl/container/inlined_vector.h:642-652 | Single-pass insert yields old prefix, input, old suffix and the original position, in storage doubled as often as needed on the way |
| `VectorPools.Pool.PoolStaysValid` | otel-cpp/install/include/absl/container/inlined_vector.h:174-768 | A statement that touches only some vectors, exchanges only their blocks and leaves those sound leaves every vector sound, no block with two owners, and the others showing what they showed |
| `VectorPools.Pool.Create` | otel-cpp/install/include/absl/container/inlined_vector.h:116-121 | An empty vector joins the others and disturbs none |
| `VectorPools.Pool.CopyNew` | otel-cpp/install/include/absl/container/inlined_vector.h:174-184 | Copy construction beside any number of other vectors |
| `VectorPools.Pool.MoveNew` | otel-cpp/install/include/absl/container/inlined_vector.h:200-224 | Move construction beside any number of other vectors, with the source's exact leftovers |
| `VectorPools.Pool.CopyInto` | otel-cpp/install/include/absl/container/inlined_vector.h:471-478 | Copy assignment, also to itself, beside any number of other vectors |
| `VectorPools.Pool.MoveInto` | otel-cpp/install/include/absl/container/inlined_vector.h:485-502 | Move assignment, also to itself, beside any number of other vectors, with the source's exact leftovers |
| `VectorPools.Pool.SwapWith` | otel-cpp/install/include/absl/container/inlined_vector.h:764-768 | Swap, also with itself, beside any number of other vectors |
| `VectorPools.Pool.InsertAt` | otel-cpp/install/include/absl/container/inlined_vector.h:619-633 | Insertion beside any number of other vectors |
| `VectorPools.Pool.EmplaceBack` | otel-cpp/install/include/absl/container/inlined_vector.h:670-689 | Appending beside any number of other vectors |
| `VectorPools.Pool.AssignInput` | otel-cpp/install/include/absl/container/inlined_vector.h:534-542 | Single-pass assign beside any number of other vectors |
| `VectorPools.Pool.InsertInput` | otel-cpp/install/include/absl/container/inlined_vector.h:642-652 | Single-pass insert beside any number of other vectors |
| `VectorPools.Pool.EraseRange` | otel-cpp/install/include/absl/container/inlined_vector.h:718-728 | Erasure beside any number of other vectors |
| `VectorPools.Pool.Clear` | otel-cpp/install/include/absl/container/inlined_vector.h:734-740 | Clearing beside any number of other vectors |
| `VectorPools.Pool.Destroy` | otel-cpp/install/include/absl/container/internal/inlined_vector.h:318-327 | The destructor gives the block back and takes the vector out |
| `VectorPools.Pool.Execute` | otel-cpp/install/include/absl/container/inlined_vector.h:174-768 | Each statement changes elements, room and place of the vectors exactly as it does on plain values, aliasing and storage notwithstanding |
| `VectorPools.Pool.Run` | otel-cpp/install/include/absl/container/inlined_vector.h:174-768 | Any program over any number of vectors shows, statement by statement, what it means on plain values; no block has two owners, the blocks out are exactly those the vectors own, every other block ever handed out was given back, and with all vectors destroyed that is all of them |
| `DnsFields.Store16` | otel-cpp/install/include/ares_dns.h:46-47 | Writes the low 16 bits in network order and no other byte |
| `DnsFields.Store32` | otel-cpp/install/include/ares_dns.h:48-51 | Writes all 32 bits in network order and no other byte |
| `DnsFields.MacroBits` | otel-cpp/install/include/ares_dns.h:79-86 | The 32-bit expression of each flag macro, cut to a byte, reads as the fitted value in its own field and as zero in every other field of the byte |
| `DnsFields.FitIsModulo` | otel-cpp/install/include/ares_dns.h:79-86 | What fits a flag field is the whole 32-bit value modulo two to the field's width |
| `DnsFields.OrFlag` | otel-cpp/install/include/ares_dns.h:79-86 | ORs those bits into the byte that holds the field |
| `DnsFields.BigEndian16` | otel-cpp/install/include/ares_dns.h:32-34 | The 16-bit getter reads network byte order |
| `DnsFields.BigEndian32` | otel-cpp/install/include/ares_dns.h:40-44 | The 32-bit getter reads network byte order |
| `DnsFields.HeaderLayout` | otel-cpp/install/include/ares_dns.h:63-75 | Identification and counts are the numbers in bytes 0-1, 4-5, 6-7, 8-9 and 10-11, first byte first (section 4.1.1 of RFC 1035) |
| `DnsFields.FlagLayout` | otel-cpp/install/include/ares_dns.h:64-71 | Byte 2 is QR, OPCODE, AA, TC and RD and byte 3 RA, Z and RCODE, from the highest bit down |
| `DnsFields.QuestionLayout` | otel-cpp/install/include/ares_dns.h:93-94 | Type and class are the numbers in bytes 0-1 and 2-3 (section 4.1.2 of RFC 1035) |
| `DnsFields.RecordLayout` | otel-cpp/install/include/ares_dns.h:101-104 | Type, class, TTL and length are the numbers in bytes 0-1, 2-3, 4-7 and 8-9 (section 4.1.3 of RFC 1035) |
| `DnsFields.Word16AfterStore` | otel-cpp/install/include/ares_dns.h:32-47 | Reading back a 16-bit store gives the value modulo 2^16 |
| `DnsFields.Word32AfterStore` | otel-cpp/install/include/ares_dns.h:40-51 | Reading back a 32-bit store gives the value |
| `DnsFields.FlagAfterFlag` | otel-cpp/install/include/ares_dns.h:64-86 | A flag setter ORs into its own field and leaves the other fields of the byte alone |
| `DnsFields.SlotAfterWrite` | otel-cpp/install/include/ares_dns.h:46-110 | A write changes the count or word field it names and no other |
| `DnsFields.FlagAfterWrite` | otel-cpp/install/include/ares_dns.h:63-90 | A write changes the flag field it names, by OR, and no other |
| `DnsFields.HeaderFields` | otel-cpp/install/include/ares_dns.h:63-90 | After any sequence of header setters a flag field is the OR of what it was and all values written to it, and a 16-bit field the last value written (section 4.1.1 of RFC 1035) |
| `DnsFields.QuestionFields` | otel-cpp/install/include/ares_dns.h:93-98 | The same for the question's fixed part (section 4.1.2 of RFC 1035) |
| `DnsFields.RecordFields` | otel-cpp/install/include/ares_dns.h:101-110 | The same for a record's fixed part, with its 32-bit TTL (section 4.1.3 of RFC 1035) |
| `DnsFields.FlagSetIsExact` | otel-cpp/install/include/ares_dns.h:79-86 | Setting a flag field leaves the wanted value if and only if every bit already set is wanted |
| `DnsFields.FieldsMakeHeader` | otel-cpp/install/include/ares_dns.h:63-75 | A header's thirteen fields determine its twelve bytes |
| `DnsFields.HeaderRebuilt` | otel-cpp/install/include/ares_dns.h:63-90 | Writing every field of any header into a zeroed one, in any order and any number of times, rebuilds it byte for byte |

## Left out

- Tracer setup (`preload_tracer.cpp:134-180`, `290-320`): exporter, provider, environment lookup, `dlsym`, signal handling and the library constructor. The models start after it; whether a tracer exists and the address and numeric port are parameters, and the unsynchronised first-call check in `init_tracer_lazy` is assumed over.
- `HttpTraceContext().Extract` and the parent context (`preload_tracer.cpp:224-230`): the extractor is not part of this model, only the carrier's `Get` it calls.
- Whether dropping the last reference to a replaced span ends it: that is the span destructor's doing, which is not part of this model. Such a span is `Replaced`, never `Ended`.
- Time stamps, span identifiers and what the SDK does with attributes; a span is its name and the list of calls made on it.
- Descriptors closed by means other than the hooked `close` (`dup2`, `exec`, process exit), and what `accept` writes to its address arguments.
- The four hooks' state changes are a class with methods, proved one call at a time; threads are values in a state machine whose locked steps use the same functions, since Dafny methods do not run concurrently.
- `ResponseParsing.ParseResponseStatus`: the memory after the write's buffer is taken to hold a non-digit somewhere, so that `strtol` stops; blanks and digits are those of the C locale.
- `std::string`, `std::map` and `istringstream` are modelled by the operations the parsers use; extraction of a word longer than the stream limit, allocation failure and locales other than C are not.
- `fn` throwing inside `call_once`, the scheduling guard (`call_once.h:110-127, 168`) and the difference between the two scheduling modes: not visible to the control word.
- The loop inside `SpinLockWait` is not part of this model's sources; it is taken to load with acquire, find the row, compare and exchange, and delay only when no row starts at the value it saw.
- `CallOnce.CallersFinish`: counts steps of threads that can move; that the operating system lets them move, and that `fn` terminates, is assumed.
- Memory ordering beyond what acquire and release make visible of `fn`'s effects.
- Exceptions thrown by element constructors or the allocator, and the rollback they cause in `InlinedVector`; allocators that compare unequal (`inlined_vector.h:233-254`); `max_size` and the width of `size_type`.
- The union of inlined buffer and heap pointer is two fields here, so overwriting one through the other is not modelled.
- Being memcpy-able (`internal/inlined_vector.h:80-84`) and being trivially destructible are one flag here, so a type that is trivially destructible but not memcpy-able is not modelled: one whose copy or assignment is not trivial, or one with an allocator other than `std::allocator`.
- `InlinedVectors.InlinedVector.TakeElements`: the moved-from marks are set after all elements were read, not one by one, and the values read are those before the call.
- `InlinedVectors.InlinedVector.Copy`: the element-wise branch also stands for the memcpy of `InitFrom`, which writes the same slots.
- `VectorPools.Pool.Run`: a statement that names a missing vector or a position outside one is skipped, and a program's own references into a vector are not followed.
- `resize`, `reserve`, `shrink_to_fit`, `emplace` in the middle, comparison, hashing and the accessors of `InlinedVector`: further uses of the same element loops.
- The DNS macros evaluate an argument more than once and take any integer type; here arguments are 32-bit values.
- `roll-dice/main.cpp`, the ADS client and server, the other preload libraries, the gRPC, c-ares, re2 and remaining absl headers: sockets and fixed strings, or declarations without bodies.
