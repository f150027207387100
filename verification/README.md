# Verified models of the ge class library

A Dafny model of the parts of the library whose correctness needs an argument over loops,
whole runs or shared state, with proofs of what those parts do for every input and every
interleaving. `dafny verify dfyconfig.toml` checks everything.

The model follows the code as it is written. Where a line does something other than its name
or comment says, the model keeps the line, says exactly for which inputs or configurations the
result is still right, and gives one where it is not; the intended behaviour is the same member
under a parameter (`bounds`, `last`, `guardMax`, `advances`, `lowers`, `again`, `storesSize`)
or a member whose name ends in `AsMeant`.

## Components

- **Unicode transcoder.** `Utf.dfy` states UTF-8 (RFC 3629) and UTF-16 (RFC 2781) without
  reference to the code. `UnicodeUtil.dfy` has the scalar converters, `UnicodeValidator.dfy` the
  ASCII scan and the UTF-8 validator, `UnicodeSse2.dfy` and `UnicodeSse2Narrow.dfy` the block
  prefixes in front of the scalar loops. A register is a sequence, `base` is the address of a
  buffer, and `next` is what a prefix finds when it looks at the octet behind the buffer.
- **Condition and reader/writer lock.** `Condition.dfy` is the condition built for Windows before
  Vista; `RWLock.dfy` is the lock on top of it and uses its invariant. Each has a class with the
  fields of the source, and a transition system over the same functions for all runs by any
  number of threads.
- **Thread pool.** `ThreadPool.dfy`: workers, queue and shutdown. A step is what one thread does
  while it holds the lock, so the runs are all interleavings. "Accepted" means added to the
  queue, as the return value of `execute` says nothing. A wake-up may happen at any time, which
  covers every way the condition might wake a thread; `ThreadPoolWaking.dfy` adds who has been
  signalled, `ThreadPoolShutdown.dfy` when the wait for an empty queue can end,
  `ThreadPoolStaffing.dfy` when workers are started and how long they wait.
- **HTTP session.** `HttpRequestText.dfy` says what a request makes of its bytes one at a time,
  `HttpRequestLines.dfy` what its lines come to, without reference to that, `HttpReader.dfy` is the line buffer and the two phases that read from it, `HttpWriter.dfy` the
  linked list of response data, with the part of a callback under the lock and the parts behind
  it as steps of their own.
- **Hash map.** `HashTable.dfy` has the linked nodes and what `put`, `resize` and `erase` do to
  them, `HashMap.dfy` the map and its iterator over a ghost map of its contents.
- **Integers.** `Numerals.dfy` defines the value of a numeral, `IntegerParsing.dfy` and
  `IntegerPrinting.dfy` have the parsers and the decimal printers in the width of their variables.
- **IPv6 addresses.** `Ipv6Text.dfy` states forms 1 and 2 of section 2.2 of RFC 4291,
  `Ipv6Parser.dfy` is the parser with its in-place move.
- **Deque** (`Deque.dfy`) and **URL escaping** (`UrlEscape.dfy`), the latter the form
  application/x-www-form-urlencoded of section 17.13.4.1 of HTML 4.01.

`Basics.dfy` holds what several components share. Some loops of the source are methods of their
own here (`SkipBlocks`, `ReadCharacters`, `MoveBucket` and the like); the row of each names its lines.

## Where the code departs from its intent

- `validateUtf8` rejects a multi-octet character that ends the buffer (`>= end`) and accepts
  four-octet forms from 0x800 on (`1 << 11`): src/ge/text/UnicodeUtil.cpp:252, 281, 308, 328.
- The block ASCII scan takes its first load off its alignment when the alignment loop stops at a
  non-ASCII octet in front of further blocks, and that load may pass the end of the buffer. In
  words the result is still right, as the first octet fails the test; the aligned SSE2 load faults,
  and such a call never comes to a verdict (src/ge/text/UnicodeUtil_sse2.cpp:31-45). A byte order
  mark in an aligned buffer is enough for it.
- The word scan reads a `size_t` and skips eight octets, so a 32-bit build tests only the first
  four of them (`HalfWords`; src/ge/text/UnicodeUtil.cpp:192-202).
- UTF-8 to UTF-16 stores the two halves of each block swapped
  (src/ge/text/UnicodeUtil_sse2.cpp:110-120).
- Both prefixes towards UTF-8 test only the top bit of each octet, so registers with code points
  such as U+0100 are packed (src/ge/text/UnicodeUtil_sse2.cpp:255 and 377).
- A wait enters the lock of the condition twice (src/win/ge/thread/Condition.cpp:167, 199), so
  from the first wait that ends no other thread gets in, and of a broadcast at most one thread
  comes back; broadcasts and the traces of the reader/writer lock are proved both with this second
  entry and with it undone. A wait that times out takes a release that may not be its own
  (line 189). The constructor (lines 75-86) never initialises the critical section, and the
  destructor (line 90) deletes one that is not declared; the model starts with a free one.
- `writeCallback` frees its entry and closes the socket after it has released the lock
  (src/ge/http/HttpServer.cpp:818-830), so an add can come before the close. After a rejection
  `readCallback` posts another read, of size 0 when the line filled the buffer (lines 573-580);
  that read scans the same bytes and can be answered with a second rejection, which is such an
  add. The reader stops at the first rejection.
- `execute` always returns false (src/ge/thread/ThreadPool.cpp:105, 140), a worker whose time ran
  out retires with tasks queued (lines 223-232), and `run` passes the negated flag, so it is the
  minimum threads that time out (line 27). A caller of `shutdownWhenEmpty` that meets queued tasks
  after a `shutdown` waits for ever (lines 170-173).
- A `HashMap` never written to has no table: `get` divides by its size 0 and `iterator` reads
  through the null pointer (inc/ge/data/HashMap.h:316, 371). `get` never advances, `erase` leaves
  the size, and `scrollToValid` reads one slot behind the table (lines 375-382, 412-434, 596-601).
- The last entry of the size table is 2147483647, twenty digits are sized as nineteen, and the
  64-bit parser guards with UINT32_MAX (src/ge/util/UInt32.cpp:24, src/ge/util/UInt64.cpp:252-258,
  115). The twentieth digit goes to index 2^32 - 1, as `charPos` has 32 bits: in front of the buffer
  with 32-bit pointers, far behind it with others.
- The IPv6 parser needs its destination zeroed where the second half skips bytes
  (src/ge/inet/INetUtil.cpp:235-239).
- The pops of `Deque` leave its size (inc/ge/data/Deque.h:334-345), and a reserve that the
  elements fill exactly leaves the head behind the buffer (line 431), which only the stale size
  keeps from being stored through.
- The test for malformed escapes compares unsigned values with zero
  (src/ge/http/HttpUtil.cpp:141). `size`, documented as input and output
  (inc/ge/http/HttpUtil.h:40), is never stored to, so `unescapeUrl` appends as many octets as the
  escaped text has; and its copy of the text has no terminator (src/ge/http/HttpUtil.cpp:102-111).

## Model

| member | source | states |
|---|---|---|
| `Utf.Utf8IsImage` | inc/ge/text/UnicodeUtil.h:19-23 | the grammar of section 4 of RFC 3629 generates exactly the encodings of sequences of Unicode scalar values |
| `Utf.EncodeDecode8` | src/ge/text/UnicodeUtil.cpp:421-464 | decoding well-formed UTF-8 gives scalar values whose encoding is the same text |
| `Utf.DecodeEncode8` | src/ge/text/UnicodeUtil.cpp:595-616 | the encoding of any scalar values is well formed and decodes to them |
| `Utf.EncodeDecode16` | src/ge/text/UnicodeUtil.cpp:475-527 | the same for well-formed UTF-16, decoding first |
| `Utf.DecodeEncode16` | src/ge/text/UnicodeUtil.cpp:363-410 | the same for UTF-16, encoding first |
| `Utf.RoundTrip8Via16` | src/ge/text/UnicodeUtil.cpp:363-410 | for every well-formed UTF-8 text, UTF-8 to UTF-16 yields well-formed UTF-16 and UTF-16 to UTF-8 gives the text back |
| `Utf.RoundTrip16Via8` | src/ge/text/UnicodeUtil.cpp:475-527 | the opposite round trip, for every well-formed UTF-16 text |
| `Utf.AsciiPrefix` | src/ge/text/UnicodeUtil.cpp:239-240 | skipping a prefix of single octets changes neither whether a text is accepted nor what the rest decodes to |
| `UnicodeUtil.SurrogatesOf` | inc/ge/text/UnicodeUtil.h:74-80 | the biased additions give the pair section 2.1 of RFC 2781 asks for |
| `UnicodeUtil.FromSurrogates` | inc/ge/text/UnicodeUtil.h:64-69 | one subtraction undoes both biases and the offset of section 2.2 of RFC 2781 |
| `UnicodeUtil.FrontChar` | src/ge/text/UnicodeUtil.cpp:51-68 | on a well-formed text the length table gives the length of the first character, which is never past the end |
| `UnicodeUtil.FrontValue` | src/ge/text/UnicodeUtil.cpp:72-101 | the bits picked for each length are the code point of the first character |
| `UnicodeUtil.FrontUnits` | src/ge/text/UnicodeUtil.cpp:377-406 | the units appended for the first character are the UTF-16 form of its code point |
| `UnicodeUtil.Utf8ToUtf16Scalar` | src/ge/text/UnicodeUtil.cpp:375-409 | the loop terminates and appends exactly the UTF-16 form of the decoded text |
| `UnicodeUtil.Utf8ToUtf32Scalar` | src/ge/text/UnicodeUtil.cpp:433-463 | the loop appends exactly the decoded code points |
| `UnicodeUtil.FrontPair` | src/ge/text/UnicodeUtil.cpp:510-523 | a high surrogate and its partner become the four octets of their code point |
| `UnicodeUtil.FrontUnit` | src/ge/text/UnicodeUtil.cpp:492-509 | any other unit becomes the one to three octets of its code point |
| `UnicodeUtil.Utf16ToUtf8Scalar` | src/ge/text/UnicodeUtil.cpp:487-526 | the loop appends exactly the UTF-8 form of the decoded text |
| `UnicodeUtil.Utf8FromCodePoint` | src/ge/text/UnicodeUtil.cpp:123-153 | the stored octets are the UTF-8 form of the code point |
| `UnicodeUtil.Utf32ToUtf8Scalar` | src/ge/text/UnicodeUtil.cpp:607-615 | the loop appends the UTF-8 form of every code point |
| `UnicodeValidator.BlockFits` | src/ge/text/UnicodeUtil_sse2.cpp:38-56 | a block that starts aligned below the rounded-down end lies inside the buffer, and so does the address behind it |
| `UnicodeValidator.TopBitIsAscii` | src/ge/text/UnicodeUtil_sse2.cpp:47-53 | the mask of top bits is empty exactly for ASCII blocks |
| `UnicodeValidator.LoadStrays` | src/ge/text/UnicodeUtil_sse2.cpp:31-45 | a buffer whose first octet is not ASCII, at an odd address in front of whole blocks, makes the first wide load stray, in words of either width and in blocks |
| `UnicodeValidator.ScanAscii` | src/ge/text/UnicodeUtil.cpp:162-212 | stops at an octet of 0x80 or more or at the end, at every address and length; it has passed only ASCII exactly when no word is misread, which happens only where a word is wider than its test; every wide load is aligned exactly unless the alignment loop stopped early in front of further blocks |
| `UnicodeValidator.StraysExactly` | src/ge/text/UnicodeUtil_sse2.cpp:31-45 | in addresses: a load strays exactly when no block may start up to the stop, one could end behind it, and the stop is no multiple of what is loaded |
| `UnicodeValidator.MisreadsExactly` | src/ge/text/UnicodeUtil.cpp:190-203 | in a 32-bit build a word is misread exactly where, behind ASCII only, four ASCII octets at a multiple of 8 stand in front of four that are not all ASCII |
| `UnicodeValidator.OnlyHalfWordsMisread` | src/ge/text/UnicodeUtil.cpp:190-203 | a scan that tests as many octets as it skips misreads nothing |
| `UnicodeValidator.Check2` | src/ge/text/UnicodeUtil.cpp:250-266 | the bit tests on two octets hold exactly for the two-octet characters of RFC 3629 |
| `UnicodeValidator.Check3` | src/ge/text/UnicodeUtil.cpp:286-302 | the bit tests, the minimum and the surrogate test hold exactly for the three-octet characters |
| `UnicodeValidator.Check4` | src/ge/text/UnicodeUtil.cpp:313-331 | the same for four octets, with the minimum as meant; with the minimum as written also exactly the overlong forms F0 8x |
| `UnicodeValidator.AfterBom` | src/ge/text/UnicodeUtil.cpp:234-237 | skipping a byte order mark changes the verdict for no text but a lone mark |
| `UnicodeValidator.ValidateLoop` | src/ge/text/UnicodeUtil.cpp:243-349 | the loop gets to the end exactly when what it starts at is acceptable |
| `UnicodeValidator.ValidateUtf8` | src/ge/text/UnicodeUtil.cpp:222-352 | a buffer of any length and address is accepted exactly by the verdict, unless a word is misread: well-formed UTF-8 with the bounds as meant, and with the bounds as written the set the next rows measure; then, too, what stands behind the scan decides; and a load strays exactly when the scan behind the byte order mark stops early in front of further blocks |
| `UnicodeValidator.BomStrays` | src/ge/text/UnicodeUtil.cpp:233-240 | 64 octets at a multiple of 32 that begin with a byte order mark and a non-ASCII character make an SSE2 load stray |
| `UnicodeValidator.HalfWordsAccept` | src/ge/text/UnicodeUtil.cpp:190-203 | in a 32-bit build without SSE2 eight octets with an FF among them are accepted |
| `UnicodeValidator.AsWrittenOnWellFormed` | src/ge/text/UnicodeUtil.cpp:252-311 | as written, a well-formed text is accepted exactly when it is empty, a lone byte order mark, or ends in a single octet |
| `UnicodeValidator.LooseIsStrict` | src/ge/text/UnicodeUtil.cpp:327-331 | a text of the grammar with overlong four-octet forms is of RFC 3629 exactly when no F0 is followed by an octet below 0x90 |
| `UnicodeValidator.AsWrittenSound` | src/ge/text/UnicodeUtil.cpp:327-331 | what is accepted as written is well formed exactly when no F0 is followed by an octet below 0x90 |
| `UnicodeValidator.WhereBoundsAgree` | src/ge/text/UnicodeUtil.cpp:252-331 | as written and as meant agree on every buffer that ends in a single octet and has no F0 in front of an octet below 0x90; with another end they part exactly on well-formed texts, with such a pair exactly on accepted ones |
| `UnicodeValidator.AsWrittenDeparts` | src/ge/text/UnicodeUtil.cpp:252-331 | U+00E9 alone is rejected, an overlong U+20AC in front of a letter is accepted |
| `UnicodeSse2.FillBlockWidens` | src/ge/text/UnicodeUtil_sse2.cpp:188-205 | the sixteen assignments widen a block octet by octet |
| `UnicodeSse2.Utf8ToUtf32Partial` | src/ge/text/UnicodeUtil_sse2.cpp:156-213 | the prefix appends exactly the ASCII octets it passes, with every load aligned and in bounds, whatever stands behind the buffer |
| `UnicodeSse2.Utf8ToUtf32` | src/ge/text/UnicodeUtil.cpp:421-464 | with or without the block prefix, at every address, exactly the decoded code points are appended |
| `UnicodeSse2.SwappedBlock` | src/ge/text/UnicodeUtil_sse2.cpp:110-120 | the stored block holds the upper eight octets and then the lower eight, which is the widened block exactly when its two halves hold the same octets |
| `UnicodeSse2.Utf8ToUtf16Partial` | src/ge/text/UnicodeUtil_sse2.cpp:72-150 | the prefix is right exactly when every block it converts repeats its first eight octets |
| `UnicodeSse2.Utf8ToUtf16` | src/ge/text/UnicodeUtil.cpp:363-410 | so the converter is right exactly without SSE2 or when all those halves agree |
| `UnicodeSse2.HalvesDepart` | src/ge/text/UnicodeUtil_sse2.cpp:110-120 | 32 aligned letters of which only the first differs are converted wrongly |
| `UnicodeSse2Narrow.PackedAscii` | src/ge/text/UnicodeUtil_sse2.cpp:383-390 | the saturating packs give the UTF-8 form of ASCII lanes |
| `UnicodeSse2Narrow.PackSaturates` | src/ge/text/UnicodeUtil_sse2.cpp:383-390 | each pack cuts its lane, taken as signed, to an unsigned octet for units of two octets and to a signed one for units of four |
| `UnicodeSse2Narrow.PassesExactly` | src/ge/text/UnicodeUtil_sse2.cpp:251-259 | a unit passes exactly when each of its octets is below 0x80 |
| `UnicodeSse2Narrow.FastEndExactly` | src/ge/text/UnicodeUtil_sse2.cpp:240-246 | the block loop ends at the last multiple of 32 up to the end of the units |
| `UnicodeSse2Narrow.ToUtf8Partial` | src/ge/text/UnicodeUtil_sse2.cpp:219-274 | for 16- and 32-bit units: the prefix is right unless a register passes the byte mask without being ASCII, and then octets are missing |
| `UnicodeSse2Narrow.PrefixDeparts` | src/ge/text/UnicodeUtil_sse2.cpp:371-381 | two registers of letters with one U+0100 in the first are misread, in either width |
| `UnicodeSse2Narrow.Utf32ToUtf8` | src/ge/text/UnicodeUtil.cpp:595-616 | the converter is right exactly without SSE2 or when no register is misread |
| `UnicodeSse2Narrow.PassingPrefix` | src/ge/text/UnicodeUtil_sse2.cpp:251-259 | units that pass the mask are no surrogates: they are code points, and the rest stays well formed |
| `UnicodeSse2Narrow.Utf16ToUtf8` | src/ge/text/UnicodeUtil.cpp:475-527 | the converter is right exactly without SSE2 or when no register is misread |
| `Condition.CriticalSection.Enter` | src/win/ge/thread/Condition.cpp:94-97 | entering counts one more level for the owner |
| `Condition.CriticalSection.Leave` | src/win/ge/thread/Condition.cpp:99-102 | leaving counts one level less |
| `Condition.Condition.constructor` | src/win/ge/thread/Condition.cpp:75-86 | no waiters, no releases, the event reset |
| `Condition.Condition.Signal` | src/win/ge/thread/Condition.cpp:104-117 | one more release, a new generation and the event set, exactly when more threads wait than are being released |
| `Condition.Condition.SignalAll` | src/win/ge/thread/Condition.cpp:119-132 | as many releases as waiters, in a new generation, when there are any |
| `Condition.Condition.BeginWait` | src/win/ge/thread/Condition.cpp:151-160 | a wait registers, saves the generation and gives the lock up |
| `Condition.Condition.Recheck` | src/win/ge/thread/Condition.cpp:162-199 | a turn of the wait loop succeeds exactly for a due release of a later generation or a timeout, takes the release, and enters the lock twice |
| `Condition.BalancedWaitKeepsLock` | src/win/ge/thread/Condition.cpp:198-199 | after a wait and the one unlock of its caller, no other thread is admitted: the second entry is never left |
| `Condition.InvStep` | src/win/ge/thread/Condition.cpp:104-200 | signals, broadcasts, beginning waits and turns of waiters keep the invariant, with the event set or not; a timeout keeps it exactly when a release is due |
| `Condition.ReleasedStep` | src/win/ge/thread/Condition.cpp:104-200 | a signal makes one more release due exactly when more threads wait than are being released, a broadcast one for every waiter, and no other step any |
| `Condition.OnePerSignal` | src/win/ge/thread/Condition.cpp:104-117 | in every run without broadcasts and timeouts the threads that came back and the releases due are as many as the signals that found somebody to release |
| `Condition.SignalReleasesExactly` | src/win/ge/thread/Condition.cpp:104-117 | after one signal and until the next, exactly one more thread comes back than was already due, if one waits; each once, and each of those that waited then |
| `Condition.EveryRun` | src/win/ge/thread/Condition.cpp:104-200 | in every run of untimed waits, the waiters of earlier generations number at least the releases due, and the event is set exactly while some are due |
| `Condition.EveryTimedRun` | src/win/ge/thread/Condition.cpp:162-196 | with timed waits, the invariant holds in every state up to any point of any run exactly when every timeout before that point meets a release that is due |
| `Condition.QuietStep` | src/win/ge/thread/Condition.cpp:151-196 | while nobody signals, each step hands a release to a thread it was meant for |
| `Condition.BroadcastReleasesExactly` | src/win/ge/thread/Condition.cpp:119-196 | without the critical section: after a broadcast and until the next signal, exactly the threads then waiting come back, each once; any still due would succeed now; a later waiter takes no release |
| `Condition.BroadcastAsWritten` | src/win/ge/thread/Condition.cpp:119-199 | with it: as written at most one thread of a broadcast comes back, which keeps the critical section, and no other gets its turn while the rest stays due; with the second entry undone every thread still due may take its turn |
| `Condition.TimeOutCosts` | src/win/ge/thread/Condition.cpp:174-190 | a timeout that meets a due release leaves one more of the threads the releases are meant for without one exactly when the thread that timed out is none of them, and until the next signal nothing makes up for it |
| `RWLock.RWLock.constructor` | src/win/ge/thread/RWLock.cpp:5-13 | no readers, no writers, and a new condition with a new critical section |
| `RWLock.RWLock.Attempt` | src/win/ge/thread/RWLock.cpp:23-45 | grants a reader exactly when there is no writer and a writer exactly when there is no holder; otherwise a wait begins, which leaves the lock of the condition |
| `RWLock.RWLock.Resume` | src/win/ge/thread/RWLock.cpp:27-45 | a woken thread tests again; the lock of the condition stays entered once |
| `RWLock.RWLock.TryLock` | src/win/ge/thread/RWLock.cpp:58-87 | the same grant or a refusal, without waiting |
| `RWLock.RWLock.Unlock` | src/win/ge/thread/RWLock.cpp:103-118 | one holder less and one signal |
| `RWLock.OneWriterAtATime` | src/win/ge/thread/RWLock.cpp:58-119 | from a new lock: while one thread writes, trylock refuses whatever another asks for, and after the unlock it grants it |
| `RWLock.TwoReaders` | src/win/ge/thread/RWLock.cpp:58-87 | from a new lock, two readers hold it together, and a writer is refused |
| `RWLock.FreeInv` | src/win/ge/thread/RWLock.cpp:5-13 | the new lock meets the invariant |
| `RWLock.AttemptKeepsInv` | src/win/ge/thread/RWLock.cpp:25-43 | whatever the loop test decides, the invariant holds: in particular, whoever goes to sleep leaves a holder behind |
| `RWLock.UnlockKeepsInv` | src/win/ge/thread/RWLock.cpp:106-118 | one signal is enough when the last holder leaves |
| `RWLock.ActKeepsInv` | src/win/ge/thread/RWLock.cpp:20-118 | every action by any admitted thread keeps the invariant, with the second entry of the condition lock as written and without it |
| `RWLock.GrantedExactly` | src/win/ge/thread/RWLock.cpp:20-119 | in every state of every trace a reader gets the lock exactly when nobody writes and a writer exactly when nobody holds it, whether it comes, tries or is woken; who does not get it sleeps, unless it tried; unlocking takes back one hold and makes one release due if a sleeper has none |
| `RWLock.Outcome` | src/win/ge/thread/RWLock.cpp:20-118 | the invariant holds at the end of every trace of either kind |
| `RWLock.NoLostWakeup` | src/win/ge/thread/RWLock.cpp:103-118 | with the lock free and threads asleep, exactly the sleepers a release is due to get what they asked for on their next turn, if the critical section admits them; there is one |
| `RWLock.Entries` | src/win/ge/thread/RWLock.cpp:23-45 | repaired, a trace leaves the critical section as it found it; as written, it is kept exactly when a wait has ended, and whoever kept it is the only one to act |
| `RWLock.EveryTrace` | src/win/ge/thread/RWLock.cpp:20-118 | with the second entry undone, in every trace from the start a writer is alone, the counters count the holders, every thread is admitted, and when the lock is free and threads sleep, one of them gets the lock on its next turn |
| `RWLock.EveryTraceAsWritten` | src/win/ge/thread/RWLock.cpp:20-118 | as written, a writer is alone in every trace; other threads are admitted at its end exactly when no wait in it has ended; and a sleeper of a free lock can still be served exactly then or when it is the owner |
| `RWLock.NobodyElse` | src/win/ge/thread/Condition.cpp:198-199 | whatever follows the first wait that ended is done by one thread |
| `RWLock.OneWaitLocksOut` | src/win/ge/thread/Condition.cpp:198-199 | after two writers, one of which waited, the lock is free, nobody sleeps, and one thread alone is admitted |
| `ThreadPool.ThreadPool.constructor` | src/ge/thread/ThreadPool.cpp:58-71 | no workers, no tasks |
| `ThreadPool.ThreadPool.Execute` | src/ge/thread/ThreadPool.cpp:103-141 | adds the task unless shut down, starts a worker exactly when the pool is not shut down, none is idle and the maximum is not reached, and returns false in every case |
| `ThreadPool.ThreadPool.GetNextWorkItem` | src/ge/thread/ThreadPool.cpp:182-237 | one turn of a worker from entry or wake-up to the next wait or the return: sleeps, takes the front task, or retires |
| `ThreadPool.Decide` | src/ge/thread/ThreadPool.cpp:192-224 | the front of the queue is taken only when there is one |
| `ThreadPool.SubmitCounts` | src/ge/thread/ThreadPool.cpp:109-133 | submitting keeps the counts of workers and sleepers and the bounds on workers and queue |
| `ThreadPool.TurnCounts` | src/ge/thread/ThreadPool.cpp:192-232 | so does a turn of a worker |
| `ThreadPool.TurnConserves` | src/ge/thread/ThreadPool.cpp:223-232 | a turn keeps accepted = finished + running + queued |
| `ThreadPool.InvStep` | src/ge/thread/ThreadPool.cpp:103-237 | every step keeps the invariant: running workers are the live ones and at most the maximum, idle ones those inside a wait, the queue within its bound, accepted tasks the disjoint union of queued, running and finished |
| `ThreadPool.After` | src/ge/thread/ThreadPool.cpp:103-237 | the invariant holds at the end of every run |
| `ThreadPool.StepIsMonotone` | src/ge/thread/ThreadPool.cpp:223-228 | a step starts no task again and undoes neither acceptance nor completion |
| `ThreadPool.RunIsMonotone` | src/ge/thread/ThreadPool.cpp:118-138 | over whole runs tasks start in the order of acceptance, each at most once, and nothing is accepted or started after the shutdown |
| `ThreadPool.Retired` | src/ge/thread/ThreadPool.cpp:162-164 | with no worker left, every started task has finished and the queue holds the others |
| `ThreadPool.ShutdownWhenEmptyReturns` | src/ge/thread/ThreadPool.cpp:166-180 | when shutdownWhenEmpty returns, in any interleaving, the queue is empty, no worker lives, and every task ever accepted has run to its end exactly once |
| `ThreadPool.StaffedRun` | src/ge/thread/ThreadPool.cpp:189-232 | in a configuration where no worker times out, a queued task has a live worker in every state of every run |
| `ThreadPool.Stranded` | src/ge/thread/ThreadPool.cpp:223-232 | in every other configuration some run leaves a task queued and no worker alive |
| `ThreadPool.ServedExactly` | src/ge/thread/ThreadPool.cpp:27 | a queued task is always served exactly when a thread is allowed and either no timeout is set or there are no minimum threads, the ones the flag at this line lets time out |
| `ThreadPoolStaffing.SpawnsExactly` | src/ge/thread/ThreadPool.cpp:119-137 | in every state of every run an accepted task brings a new worker exactly when no worker waits and fewer than the maximum live, timed exactly below the minimum |
| `ThreadPoolStaffing.WaitsForRoomExactly` | src/ge/thread/ThreadPool.cpp:109-116 | a submission waits exactly when there is a limit and as many tasks are accepted but not started |
| `ThreadPoolStaffing.WorkerForEach` | src/ge/thread/ThreadPool.cpp:103-141 | n submissions with nobody finishing or waiting leave min(n, maximum) workers |
| `ThreadPoolStaffing.TurnExactly` | src/ge/thread/ThreadPool.cpp:182-240 | a worker that looks for a task or waits for one retires exactly after a shutdown or when its waits come to the timeout, and else takes the first queued task or waits on |
| `ThreadPoolStaffing.TimeLeftExactly` | src/ge/thread/ThreadPool.cpp:199-221 | in every run the time left to a waiting timed worker is the timeout less the sum of its waits |
| `ThreadPoolShutdown.WorkerEmpties` | src/ge/thread/ThreadPool.cpp:182-235 | while the pool is not shut down, any live worker is enough for some run to empty the queue |
| `ThreadPoolShutdown.EmptyLoopEndsExactly` | src/ge/thread/ThreadPool.cpp:166-173 | at any point of any run, the loop of shutdownWhenEmpty can still end exactly when the queue is empty or, before any shutdown, a worker lives or execute can start one; after a shutdown the queue never changes, so a caller that meets tasks in it waits for ever |
| `ThreadPoolWaking.SubmitAttends` | src/ge/thread/ThreadPool.cpp:118-138 | execute leaves no waiter behind, though it does not signal when it starts a worker |
| `ThreadPoolWaking.TurnAttends` | src/ge/thread/ThreadPool.cpp:192-234 | nor does a turn of a worker |
| `ThreadPoolWaking.EventAttends` | src/ge/thread/ThreadPool.cpp:103-237 | every step keeps it so that whoever has not been signalled would only wait again |
| `ThreadPoolWaking.Finally` | src/ge/thread/ThreadPool.cpp:103-237 | that holds at the end of every run |
| `ThreadPoolWaking.EveryHistory` | src/ge/thread/ThreadPool.cpp:103-237 | in every run: every waiting worker has been signalled while tasks are queued or after a shutdown, every waiter for room when there is room, and the waiters of the shutdowns when the queue is empty and when no worker is left |
| `ThreadPoolWaking.SomebodyIsUp` | src/ge/thread/ThreadPool.cpp:134-137 | while a task is queued and a worker lives, some worker runs, asks for a task or has been signalled |
| `HttpRequestText.FeedConcat` | src/ge/http/HttpServer.cpp:583-750 | feeding bytes in two pieces is feeding them at once |
| `HttpRequestText.ReadsAreOneStream` | src/ge/http/HttpServer.cpp:583-750 | any sequence of reads makes of a request what its bytes make in one |
| `HttpRequestText.SplitsDoNotMatter` | src/ge/http/HttpServer.cpp:583-750 | two ways to cut the same bytes end in the same lines, the same folded headers, the same verdict at the same byte |
| `HttpRequestText.FeedLine` | src/ge/http/HttpServer.cpp:346-358 | ordinary bytes and a newline complete the line of everything since the last newline |
| `HttpRequestText.FeedIllegal` | src/ge/http/HttpServer.cpp:360-366 | a control byte rejects the request at that byte |
| `HttpRequestLines.IllegalBytes` | src/ge/http/HttpServer.cpp:328-383 | the bytes that spoil a line are those of 128 and more and those below 30 but tab, newline and carriage return |
| `HttpRequestLines.OneLine` | src/ge/http/HttpServer.cpp:328-383 | a line shorter than the buffer counts without its newline and the carriage return in front of it |
| `HttpRequestLines.LongLine` | src/ge/http/HttpServer.cpp:328-383 | a line that fills the 4096 bytes of the buffer is refused at that byte |
| `HttpRequestLines.HeadersGathered` | src/ge/http/HttpServer.cpp:714-748 | up to 257 headers are gathered, one for each line that begins with neither blank nor tab, each that line followed by its continuations in order |
| `HttpRequestLines.HeadersAreLines` | src/ge/http/HttpServer.cpp:714-748 | the headers one after the other are the lines one after the other |
| `HttpRequestLines.TooManyHeaders` | src/ge/http/HttpServer.cpp:734-744 | the line that begins a header when 257 are stored is answered with Bad Request |
| `HttpRequestLines.ContinuationFirst` | src/ge/http/HttpServer.cpp:714-726 | so is a continuation in front of all headers |
| `HttpRequestLines.BlankLine` | src/ge/http/HttpServer.cpp:668-712 | the blank line ends the headers exactly when the length parses and is positive or not needed; else it is answered with Length Required or, if the length does not parse, Bad Request |
| `HttpRequestLines.RequestIsRead` | src/ge/http/HttpServer.cpp:589-752 | a complete request, in whatever reads and with either line end, comes to exactly what its lines say |
| `HttpReader.Scan` | src/ge/http/HttpServer.cpp:340-367 | stops at the first newline or illegal byte |
| `HttpReader.HttpSession.constructor` | src/ge/http/HttpSession.cpp:90-109 | a new session has read nothing, has room and has answered nothing |
| `HttpReader.HttpSession.TryReadLine` | src/ge/http/HttpServer.cpp:328-378 | a completed line, a rejection or a longer partial line, with nothing lost of what is to be made of the rest |
| `HttpReader.HttpSession.FlushLine` | src/ge/http/HttpServer.cpp:385-395 | moves the bytes behind the line to the front, all of them and in order |
| `HttpReader.HttpSession.SendRequestFailure` | src/ge/http/HttpServer.cpp:313-321 | the session is rejected, and the message is its next answer |
| `HttpReader.HttpSession.FirstLineRead` | src/ge/http/HttpServer.cpp:616-639 | a parsed first line opens the header phase, after the interim response for HTTP/1.1; another is answered as not implemented |
| `HttpReader.HttpSession.HeaderLineRead` | src/ge/http/HttpServer.cpp:667-748 | on the fields: a continuation is appended to the last header, another line is one more header up to 257, the blank line ends the headers or is refused for its length; and the progress is that of the line |
| `HttpReader.HttpSession.DecideLength` | src/ge/http/HttpServer.cpp:668-712 | the blank line opens the body exactly for a length that parses and is positive or not needed |
| `HttpReader.HttpSession.StoreHeaderLine` | src/ge/http/HttpServer.cpp:714-748 | the last header gets the continuation at its end, or the headers get the line, or the request is refused |
| `HttpReader.HttpSession.CompleteLine` | src/ge/http/HttpServer.cpp:595-612 | both phases go on with a complete line, or end the read: in one rejection, or with the longer partial line |
| `HttpReader.HttpSession.FirstLineTurn` | src/ge/http/HttpServer.cpp:591-640 | the first-line phase of one read, with its interim response or its rejection |
| `HttpReader.HttpSession.HeaderTurn` | src/ge/http/HttpServer.cpp:647-749 | one turn of the header loop, with its rejection if any |
| `HttpReader.HttpSession.ReadHandler` | src/ge/http/HttpServer.cpp:583-750 | one read makes exactly the progress its bytes make and is answered accordingly, and leaves room for the next unless the request is decided |
| `HttpReader.HttpSession.Receive` | src/ge/http/HttpServer.cpp:573-580 | the bytes of a read go behind the filled part |
| `HttpReader.HttpSession.ReadAll` | src/ge/http/HttpServer.cpp:528-580 | a request that arrives in any number of reads that fit the buffer ends where its bytes lead, however they were cut |
| `HttpReader.ReadRequest` | src/ge/http/HttpServer.cpp:586-752 | the session that has read a complete request has the headers its lines make, or the failure they are answered with, and has answered with an interim response exactly for HTTP/1.1 |
| `HttpWriter.HttpSession.constructor` | src/ge/http/HttpSession.cpp:104-108 | an empty list and no active write |
| `HttpWriter.HttpSession.SocketWrite` | src/ge/http/HttpServer.cpp:299-309 | needs that no write is outstanding: its callers prove that there is never a second one |
| `HttpWriter.HttpSession.Append` | src/ge/http/HttpServer.cpp:281-290 | the entry hangs at the end of the list |
| `HttpWriter.HttpSession.AddWriteData` | src/ge/http/HttpServer.cpp:266-311 | the queue gains the item at its end in a new entry behind the old ones, and a write starts exactly when none was active |
| `HttpWriter.HttpSession.Detach` | src/ge/http/HttpServer.cpp:798-818 | under the lock: the head leaves the list and the others stay in order, the next write starts or none is active, and the callback notes whether the list is empty after the last data |
| `HttpWriter.HttpSession.Free` | src/ge/http/HttpServer.cpp:820-824 | behind the lock: the entry is deleted, with its data exactly when they are its own, and was not before |
| `HttpWriter.HttpSession.Close` | src/ge/http/HttpServer.cpp:826-830 | the socket is closed last |
| `HttpWriter.HttpSession.WriteCallback` | src/ge/http/HttpServer.cpp:772-831 | a callback that nothing comes between; an error closes the socket at once |
| `HttpWriter.AddWithinCallback` | src/ge/http/HttpServer.cpp:266-311 | a piece added between the two parts of the callback for the one before is written and freed after it, and then the socket is closed |
| `HttpWriter.TwoPieces` | src/ge/http/HttpServer.cpp:791-832 | a response of two pieces is written and freed in order, and then the socket is closed |
| `HttpWriter.InvStep` | src/ge/http/HttpServer.cpp:266-311 | an add and every part of a callback keep the invariant, in any interleaving |
| `HttpWriter.EveryRun` | src/ge/http/HttpServer.cpp:772-831 | at every point of every run: a write is outstanding only for the head; the active flag tells whether the list is empty; what was detached and what is listed is everything added, in order; and each detached item is freed once, after its write, or still in the callback that will free it |
| `HttpWriter.RunCounts` | src/ge/http/HttpServer.cpp:266-311 | over any run additions pile up in order, and what is freed or closed stays so |
| `HttpWriter.FreesOutOfOrder` | src/ge/http/HttpServer.cpp:818-824 | two callbacks may free their entries in either order |
| `HttpWriter.ClosedExactly` | src/ge/http/HttpServer.cpp:811-829 | without errors the session is closed, or a callback is about to, exactly when some completion emptied the list after an add marked as last |
| `HttpWriter.CloseMeets` | src/ge/http/HttpServer.cpp:811-830 | when that callback comes to its close, the list is filled again exactly when more adds than completions came in between; with no completion, when any add did |
| `HttpWriter.OrderlyRun` | src/ge/http/HttpServer.cpp:826-830 | if nothing is added after a mark, every close finds the list empty |
| `HttpWriter.EarlyClose` | src/ge/http/HttpServer.cpp:826-830 | otherwise some run closes on a filled list |
| `HttpWriter.SafeExactly` | src/ge/http/HttpServer.cpp:266-311 | so a sequence of adds is safe in every interleaving exactly when it marks nothing but its end |
| `Ipv6Text.ParseIsSound` | src/ge/inet/INetUtil.cpp:161-226 | a successful reading is a writing of the text in form 1 or 2 of section 2.2 of RFC 4291 |
| `Ipv6Text.Form1IsParsed` | src/ge/inet/INetUtil.cpp:168-217 | every text of form 1 is read |
| `Ipv6Text.Form2IsParsed` | src/ge/inet/INetUtil.cpp:192-202 | every text of form 2 is read, with its groups on the right sides of the "::" |
| `Ipv6Text.ParseIsExact` | src/ge/inet/INetUtil.cpp:151-245 | the texts read are exactly those that stand for an address, and the address is theirs |
| `Ipv6Parser.PlacedIsExpanded` | src/ge/inet/INetUtil.cpp:228-242 | the sixteen bytes are the address exactly when those the second half skips were zero before |
| `Ipv6Parser.MoveToEnd` | src/ge/inet/INetUtil.cpp:235-239 | the overlapping move, last byte first, puts the second half at the end and zeros behind it |
| `Ipv6Parser.ReadCharacters` | src/ge/inet/INetUtil.cpp:168-217 | the character loop fails exactly when the reading does, and else holds it in its variables and the buffer |
| `Ipv6Parser.FlushGroup` | src/ge/inet/INetUtil.cpp:219-226 | the last group is stored if there is one and room for it |
| `Ipv6Parser.MoveRight` | src/ge/inet/INetUtil.cpp:228-242 | the move, seen from the groups |
| `Ipv6Parser.Complete` | src/ge/inet/INetUtil.cpp:219-247 | what follows the loop accepts exactly eight groups, or at most seven with a "::" |
| `Ipv6Parser.Convert` | src/ge/inet/INetUtil.cpp:122-248 | the parser accepts exactly what is read and leaves the placed groups, with everything behind sixteen bytes untouched |
| `Ipv6Parser.ReadIsExact` | src/ge/inet/INetUtil.cpp:122-248 | a text is accepted exactly when, without its zone, it stands for an address |
| `Ipv6Parser.Ipv6AddrStringToBinary` | src/ge/inet/INetUtil.cpp:122-248 | accepts exactly the texts that stand for an address once the zone is dropped, and on a zeroed destination leaves that address |
| `Ipv6Parser.ZoneIsDropped` | src/ge/inet/INetUtil.cpp:129-149 | what follows the first percent sign is dropped, and may not be empty |
| `Ipv6Parser.StoresNumbers` | src/ge/inet/INetUtil.cpp:122-248 | any eight numbers of 16 bits, or any up to seven around a "::", written in hexadecimal with or without a zone, are stored high octet first, in front and at the end, with zeros between |
| `Ipv6Parser.UnzeroedDeparts` | src/ge/inet/INetUtil.cpp:235-239 | "::1" over bytes that were not zero leaves another address |
| `Numerals.GuardsAreExact` | src/ge/util/UInt32.cpp:114-121 | the guard on the product fails exactly when the product would exceed the limit |
| `Numerals.CharValueOfDigits` | src/ge/util/UtilData.cpp:36-54 | the sixteen digits have their values in upper and in lower case |
| `Numerals.CharValueOfOthers` | src/ge/util/UtilData.cpp:36-54 | no other character has a value |
| `Numerals.ValueOfNumeral` | src/ge/util/UInt32.cpp:68-135 | the numeral of a number in any radix from 2 to 16, in either case, has that value |
| `Numerals.DecimalIsNumeral` | src/ge/util/UInt32.cpp:244-264 | the decimal numeral is the one of radix 10 |
| `Numerals.ValueOfDecimal` | src/ge/util/UInt32.cpp:244-264 | the decimal numeral of a number has that value and no leading zero |
| `Numerals.DecimalLength` | src/ge/util/UInt32.cpp:273-280 | the numeral has k + 1 digits exactly between the powers of ten |
| `IntegerParsing.OneSignedDigit` | src/ge/util/Int32.cpp:148-175 | with the negative accumulator and truncating division, either guard fails exactly when the value read so far already leaves the type |
| `IntegerParsing.ParseInt32` | src/ge/util/Int32.cpp:87-187 | accepts, in radix 2 to 16, exactly the numerals whose value some int32 has, returns it, and no intermediate leaves its type |
| `IntegerParsing.ParseInt64` | src/ge/util/Int64.cpp:89-189 | the same for int64 |
| `IntegerParsing.ParseUInt32` | src/ge/util/UInt32.cpp:68-135 | the same for unsigned numerals and uint32 |
| `IntegerParsing.ParseUInt64` | src/ge/util/UInt64.cpp:59-126 | accepts exactly the numerals of value up to the constant of its second guard: UINT32_MAX as written, UINT64_MAX as meant |
| `IntegerParsing.RefusesAboveUInt32` | src/ge/util/UInt64.cpp:114-119 | the numeral of 2^32 is refused as written |
| `IntegerParsing.DecimalIsRead` | src/ge/util/UInt32.cpp:68-135 | every parser reads the decimal numeral of a number back to it |
| `IntegerParsing.SeenIsFront` | src/ge/util/UInt32.cpp:68-75 | a text shorter than 2^32 is seen whole, a longer one without a multiple of 2^32 at its end |
| `IntegerParsing.WrittenIsRead` | src/ge/util/Int32.cpp:87-187 | the text of a number in any radix, in either case and with its sign, has that value in the terms of every parser |
| `IntegerParsing.Int32ReadsBack` | src/ge/util/Int32.cpp:87-187 | every int32 is read back from its text in every radix |
| `IntegerParsing.Int64ReadsBack` | src/ge/util/Int64.cpp:89-189 | so is every int64 |
| `IntegerParsing.UInt32ReadsBack` | src/ge/util/UInt32.cpp:68-135 | so is every uint32 |
| `IntegerParsing.UInt64ReadsBack` | src/ge/util/UInt64.cpp:59-126 | so is exactly every uint64 up to the constant of the second guard |
| `IntegerPrinting.UInt32Base10Size` | src/ge/util/UInt32.cpp:273-280 | the number of digits, unless the value exceeds the last table entry; then the search leaves the table |
| `IntegerPrinting.UInt64Base10Size` | src/ge/util/UInt64.cpp:249-259 | the number of digits below 10^19, and 19 for the values of twenty digits |
| `IntegerPrinting.TwoDigits` | src/ge/util/UInt32.cpp:246-251 | the three shifts are a hundred times the quotient and the remainder is the next two digits |
| `IntegerPrinting.ShiftedProduct` | src/ge/util/UInt32.cpp:258-259 | below 65536, (v * 52429) >> 19 is v / 10 without leaving 32 bits, and the shifts leave v mod 10 |
| `IntegerPrinting.UInt32ToBuffer` | src/ge/util/UInt32.cpp:230-267 | with room the buffer holds the decimal numeral from index 0 and is otherwise untouched; without room it is untouched; above the last table entry the size search runs off |
| `IntegerPrinting.UInt64ToBuffer` | src/ge/util/UInt64.cpp:210-247 | the same below 10^19; of a twenty-digit value with room the last nineteen digits are stored, and the first at index 2^32 - 1, where --charPos wraps to |
| `Deque.Deque.constructor` | inc/ge/data/Deque.h:122-130 | no elements and no buffer |
| `Deque.Deque.Get` | inc/ge/data/Deque.h:365-375 | the i-th element of the contents |
| `Deque.Deque.Front` | inc/ge/data/Deque.h:309-319 | the first element |
| `Deque.Deque.Back` | inc/ge/data/Deque.h:321-331 | the last element |
| `Deque.Deque.Reserve` | inc/ge/data/Deque.h:403-434 | a reserve below the capacity changes nothing; another lays the ring out in order from slot 0, and leaves the head one past the end exactly when the new buffer is full |
| `Deque.Deque.AddBack` | inc/ge/data/Deque.h:287-307 | the contents gain just the element at the end, exactly when the buffer need not grow or no popped element is still counted; the head ends at (tail + number of elements) mod capacity |
| `Deque.Deque.AddFront` | inc/ge/data/Deque.h:265-285 | the contents gain just the element at the front, on the same condition |
| `Deque.Deque.PopFront` | inc/ge/data/Deque.h:333-338 | the first element goes, but the size still counts it |
| `Deque.Deque.PopBack` | inc/ge/data/Deque.h:340-345 | the last element goes, but the size still counts it |
| `Deque.Deque.PopFrontAsMeant` | inc/ge/data/Deque.h:333-338 | with the size lowered, the contents lose their first element and nothing lags, except behind a reserve that the elements filled: there the head stays one past the end of a buffer that is no longer full |
| `Deque.Deque.PopBackAsMeant` | inc/ge/data/Deque.h:340-345 | with the size lowered, the contents lose their last element and nothing lags |
| `Deque.RingAt` | inc/ge/data/Deque.h:470-479 | place i of the ring is the slot indexPtr computes |
| `Deque.RingSnoc` | inc/ge/data/Deque.h:293-295 | a store at the head extends the ring at its end, around the end of the buffer |
| `Deque.RingCons` | inc/ge/data/Deque.h:271-273 | a store in front of the tail extends it at its front |
| `Deque.RingTail` | inc/ge/data/Deque.h:450-459 | moving the tail on drops the first element |
| `Deque.FullPopThenAddRevives` | inc/ge/data/Deque.h:333-338 | with the pops as written, a pop from a full deque and an add bring the popped element back |
| `UrlEscape.EscapeUrl` | src/ge/http/HttpUtil.cpp:63-98 | the loop escapes octet by octet |
| `UrlEscape.EscapedIsForm` | src/ge/http/HttpUtil.cpp:63-98 | the escaped text holds only letters, digits, plus signs and percent signs with two upper-case digits, and each octet adds what section 17.13.4.1 of HTML 4.01 writes for it |
| `UrlEscape.HexTables` | src/ge/http/HttpUtil.cpp:31-48 | the digits of both tables have their values |
| `UrlEscape.NeverLonger` | src/ge/http/HttpUtil.cpp:123-161 | decoding never writes more than it has read |
| `UrlEscape.ReadOne` | src/ge/http/HttpUtil.cpp:129-159 | one character or escape is read from the untouched part of the buffer |
| `UrlEscape.UnescapeUrlInPlace` | src/ge/http/HttpUtil.cpp:115-166 | the buffer ends up with the decoded octets, a terminator on success, and every other octet as it was; the size is left as it was, where the decoded length was meant |
| `UrlEscape.SameLength` | src/ge/http/HttpUtil.cpp:123-161 | decoding keeps the length of exactly the texts without a percent sign |
| `UrlEscape.UnescapeUrl` | src/ge/http/HttpUtil.cpp:100-113 | appends the decoded text if the size were stored, and as written as many octets of the buffer as the escaped text has, whatever they are |
| `UrlEscape.AppendsTooMuch` | src/ge/http/HttpUtil.cpp:100-113 | as written the appended octets are the decoded text exactly when it has no percent sign, even with a terminator right behind the copy |
| `UrlEscape.UnescapeEscape` | src/ge/http/HttpUtil.cpp:63-166 | decoding the escaped form of any octets, zeros included, gives them back, and the escaped form has no zero |
| `UrlEscape.TripleIsDecoded` | src/ge/http/HttpUtil.cpp:135-148 | a percent sign and two digits in either case are decoded to their octet |
| `UrlEscape.OtherIsDecoded` | src/ge/http/HttpUtil.cpp:150-160 | any other octet is kept, but a plus sign becomes a blank, and a truncated escape is refused |
| `UrlEscape.RoundTrip` | src/ge/http/HttpUtil.cpp:115-166 | in the buffer of the terminated escaped form, whatever follows it, the decoder leaves the octets and a terminator |
| `UrlEscape.AgreesWhenWellPaired` | src/ge/http/HttpUtil.cpp:141-144 | the decoder agrees with the one its digit test was meant to give exactly on texts whose escapes are hexadecimal, and any other should have failed |
| `UrlEscape.AcceptsNonHex` | src/ge/http/HttpUtil.cpp:138-144 | "%zz" is accepted as the octet EF |
| `HashTable.OneNodePerKey` | inc/ge/data/HashMap.h:341-356 | no two nodes of a well-formed table share a key |
| `HashTable.KeyAbsent` | inc/ge/data/HashMap.h:334-338 | a key that is not in its bucket is nowhere |
| `HashTable.FiledWith` | inc/ge/data/HashMap.h:360-361 | a node with a new key at the end of the bucket of its hash keeps every node in its bucket and the keys unique |
| `HashTable.LinkedWith` | inc/ge/data/HashMap.h:467-481 | after a node was hung behind its bucket, every chain is linked and ends |
| `HashTable.Hang` | inc/ge/data/HashMap.h:462-476 | the node becomes the slot or the successor of the last node of its new bucket |
| `HashTable.MoveNode` | inc/ge/data/HashMap.h:460-481 | one turn of resize moves one node: the rest of the old chain is still reachable and the new table is well formed |
| `HashTable.MoveBucket` | inc/ge/data/HashMap.h:456-482 | a whole bucket moves, in order |
| `HashTable.MoveAll` | inc/ge/data/HashMap.h:454-483 | every node moves exactly once, in order, and none is lost |
| `HashTable.StoreCell` | inc/ge/data/HashMap.h:338-361 | the store through the pointer that ends a bucket |
| `HashTable.AddNode` | inc/ge/data/HashMap.h:360-361 | a fresh node for the key ends its bucket |
| `HashTable.Unlink` | inc/ge/data/HashMap.h:415-427 | the chain leads past the erased node, also when it was the first |
| `HashTable.FiledWithout` | inc/ge/data/HashMap.h:415-427 | the buckets without a node hold exactly the others |
| `HashTable.RemoveNode` | inc/ge/data/HashMap.h:415-430 | the table without the node is well formed |
| `HashMap.HashMap.constructor` | inc/ge/data/HashMap.h:156-161 | the empty map without a table |
| `HashMap.HashMap.Search` | inc/ge/data/HashMap.h:338-358 | finds the node of the key, or proves that the map has none and stops at the last node of the bucket |
| `HashMap.HashMap.Overwrite` | inc/ge/data/HashMap.h:345-350 | the value of a present key is replaced |
| `HashMap.HashMap.Insert` | inc/ge/data/HashMap.h:360-361 | a new key is added |
| `HashMap.HashMap.Put` | inc/ge/data/HashMap.h:330-363 | the map gains or replaces the entry and nothing else; the table stays well formed and at most three quarters full, begins with 16 slots and doubles exactly when the bound is passed |
| `HashMap.HashMap.Resize` | inc/ge/data/HashMap.h:449-485 | the same nodes in the buckets of the new size, in the order of the old ones; no entry lost, doubled or changed |
| `HashMap.HashMap.Get` | inc/ge/data/HashMap.h:368-385 | divides by zero exactly on a map never written to; as written, spins exactly when the first node of the bucket has another key; otherwise, and always as meant, returns an iterator that stands at the key, inside the table, exactly when the map has it, and past the table otherwise |
| `HashMap.HashMap.Lookup` | inc/ge/data/HashMap.h:376-383 | the loop of get: finds the node and its place, or proves that the map has none |
| `HashMap.HashMap.Erase` | inc/ge/data/HashMap.h:412-434 | the map loses exactly the key of the iterator, which becomes invalid; as written the size keeps counting it |
| `HashMap.HashMap.Remove` | inc/ge/data/HashMap.h:415-430 | one node and one key less |
| `HashMap.PutGetErase` | inc/ge/data/HashMap.h:330-434 | a key put, looked up and erased as meant leaves the map without it and otherwise as it was |
| `HashMap.EmptyAgain` | inc/ge/data/HashMap.h:156-161 | a new map into which one key was put and from which it was erased is empty again |
| `HashMap.ConstIterator.constructor` | inc/ge/data/HashMap.h:66-73 | a new iterator stands at the first entry from its place on |
| `HashMap.ConstIterator.ScrollToValid` | inc/ge/data/HashMap.h:588-604 | no entry is skipped; the slot behind the table is read exactly when the iterator leaves the last entry, and it then holds what stands there |
| `HashMap.ConstIterator.HasNext` | inc/ge/data/HashMap.h:579-583 | true exactly while entries remain, whatever stands behind the table |
| `HashMap.ConstIterator.IsValid` | inc/ge/data/HashMap.h:559-562 | true while entries remain, and after them exactly when something non-null stands behind the table |
| `HashMap.ConstIterator.Next` | inc/ge/data/HashMap.h:567-574 | returns the first remaining entry and leaves the others; after the last one it has read behind the table |
| `HashMap.VisitAll` | inc/ge/data/HashMap.h:567-604 | iterating terminates and visits the entries in bucket order; on a map never written to, iterator() reads through its null table |
| `HashMap.EveryEntryOnce` | inc/ge/data/HashMap.h:567-604 | that order has every entry of the map exactly once |

## Left out

- HttpWriter.HttpSession.SocketWrite: states only that the entry is being written; the socket service is foreign code.
- Condition.Condition.constructor: gives a critical section that is ready for use, which the source never initialises.
- Condition.EveryTimedRun: a timeout may come at any time; the arithmetic of the clock is not modelled.
- ThreadPool.ServedExactly: says when a queued task has a live worker, not that the scheduler ever runs it.
- HttpReader.HttpSession.HeaderLineRead: the search for Content-Length is a parameter and the buffer for the body is left out; `char` is taken as signed.
- HttpReader.HttpSession.FirstLineRead: the parser of the first line is a parameter, so its own text handling is not modelled.
- HttpReader.HttpSession.SendRequestFailure: the session ends with its first rejection; the reads that follow one are not modelled.
- HashMap.HashMap.Get: iterators that other operations invalidate are not followed.
- UnicodeSse2.Utf8ToUtf16: the condition is on the blocks the prefix converts; the AVX file has the shape of the SSE2 scan and is not modelled.
- The HTTP body phase, which copies from the line buffer before the blank line is flushed; the end of the headers is the last state here.
- Sockets, files, processes, the console, polling and error mapping: the meaning is in foreign calls.
- Storage of String, List and the linked lists: destinations are growing sequences, the queue of the pool is a sequence.
- Printing in other radices and of negative numbers, and the copying, moving and inserting members of HashMap and Deque.
- HashMap with an initial size, whose table is not zeroed.
- The branches for Vista and later, which call the system.
- Destructors, allocation failure, exceptions from user code, and wrap-around of the generation and thread counters. The destructor of ThreadPool drops what is still queued.
- Floating point, dates, byte-order readers and the bit-twiddling helpers.
