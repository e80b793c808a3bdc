# Verified models of flinter's core

flinter is a C and C++ library for network servers. Most of it wraps the
operating system and other libraries; a few parts decide hard things in their
own code. This project models those parts in Dafny and proves what they
promise.

| file | modules | what it models |
|---|---|---|
| Framing.dfy | Framing | how a connection cuts the bytes it reads into messages |
| LinkageSpec.dfy | LinkageSpec | what each call on a connection does, as functions on values |
| LinkageRuns.dfy | LinkageRuns | what holds in every state a connection can reach |
| Linkage.dfy | Linkages | the connection, its I/O layer and its worker as objects updated in place |
| DecimalValues.dfy, DecimalText.dfy, Decimal.dfy | DecimalValues, DecimalText, Decimals | decimal arithmetic, rounding, reading and writing |
| CouncilRuns.dfy | CouncilRuns | the election, step by step, for any number of processes |
| CouncilNodes.dfy | CouncilNodes | the names of candidates' nodes |
| Council.dfy | Councils | one process as an object |
| ReadWriteLock.dfy | ReadWriteLock | the writer-first lock made of a mutex and two semaphores |
| AsyncRouterRuns.dfy, AsyncRouter.dfy | RouterRuns, Routers | counted objects, pending calls and the router over both |
| EasyServer.dfy | Channels, EasyServers | the life of the handlers of outgoing channels |
| CleanPath.dfy | CleanPath | the two passes that clean a path |
| Explode.dfy | Explode | the parser of lists such as "1,3-5;7" |
| MurmurHash3.dfy | MurmurHash3 | the 32-bit hash on words |
| Arithmetic.dfy | Arithmetic | facts about products, quotients and powers |
| Basics.dfy | Basics | options, characters, sets and increasing sequences, used by several models |

**Connections.** `Linkage` receives through three paths that differ only in how
many bytes they move, queues what it cannot send, repeats an incomplete write
with the same bytes, and keeps two event watchers in step with one pending
action. The I/O layer is a finite list of replies that are otherwise
arbitrary, with every status at every point and every number of bytes taken on
success; a layer with nothing left to answer reports a bug, which makes every
run finite without shortening any. A handler may send and disconnect from
inside its callbacks. Its reaction is a function of everything it has been told;
as no two callbacks of a run see the same past, this covers every handler. The
results hold for every list of calls, every list of replies and every handler.

A handler that hangs up while a chunk is being delivered still gets the rest of
that chunk, because the source looks at the flag only when a chunk arrives.
`MessagesAreTheStream` says so exactly, for every run and across every attachment
of it: what is delivered is what the bytes read over each connection before hanging
up frame to. `SplitsAgreeExactlyWhenStable` shows that the way a
stream is split into reads never matters exactly when the answers of
GetMessageLength are prefix-stable, which is what linkage.h asks of it.

Sends of more than 64 MiB are where the source falls short of its own comment.
`FalseSendLeaks` and `FalseSendsNothing` give the exact condition under which a
send that returned false has put bytes on the wire. An incomplete write is repeated
with the same bytes, whatever a handler and its callers do next, if and only if it
has at most 64 MiB (`IncompleteSendIsRepeatedUpTo`); above that the very next send
writes its own bytes instead (`BigSendIsNotRepeated`). A linkage attached over an
established connection is in the state these speak of (`DirectIsReachable`).

What an event waits for is exact: at every turn the reply of the I/O layer decides
whether the event goes on, ends well, ends for good, or waits, and then which of the
two watchers is on (`IncompleteEndsEvent`, `FailureEndsEvent`). In every run a
pending read, write or shutdown has the watcher that the last reply asked for
(`PendingIsAwaited`).

**Decimals.** The value of a decimal is a real number, the integer over a power
of ten. A rounding mode is a condition on a real and an integer that determines
the integer; division stores that integer and reports the sign of stored minus
true. A text is a numeral by a condition on each of its characters, and what it
denotes is a real. `WriteAndRead` writes a decimal and reads the text: that
succeeds exactly below 1024 characters, restores integer and scale if all digits
were written, and otherwise gives what dividing by one with the same rounding gives.
The text itself is the only plain numeral with the digits asked for that denotes
the number (`TextIsPlain`, `PlainIsUnique`).

**Councils.** A process reads the list of candidates, decides, and may by then
be out of date. Between two steps of one process every other process and the
store may move, and the store may lose any node at any time. At most n
processes hold a seat while their node lives. A process that waits with the
size known tracks a node that is gone as soon as its turn has come. When the
list could not be read the source forgets the size until the election node
changes. So a process whose turn has come can be seated without a new word from
the election node if and only if it knows the size (`SeatedExactlyIfSizeKnown`):
knowing it, four steps of its own suffice, and without it no continuation of any
length does. `UnreadListStrands` is a run that ends that way. A node outlives its
owner's interest exactly after a failed erasure, a lost session or failed tracking
(`LeftBehindExactly`); in a run without these every living node has its process. The walk over
the predecessors can be started with none in front (`WalkCanFail`);
`WalkStartsUnlessSizeLost` gives the exact condition.

**Locks, routers, servers.** These are state machines over atomic sections, for
any number of threads, with the objects of the source shown to make exactly
those steps; what a councilman does in one callback is a run of single steps of
the election (`AttendIsARun`, `FiredIsARun`). Unlocking a lock that is not held breaks it, always
(`UnlockNeedsHolder`). A reader enters at once exactly if no writer is inside or
waits, and a writer exactly if nobody is inside. The hosts of the router take turns:
while none comes or goes every one is taken once before any is taken again, whatever
other threads do in between (`EveryKeyInTurn`). A reference taken by the router is outstanding or has
ended in exactly one way, and every object is destroyed exactly once after
`Shutdown`, which has nothing to wait for. The handlers of a server are exactly
those of the outgoing channels that are connected or may connect again.

**Paths, lists, hashes.** Both path passes run over arrays and meet a stack of
components. Two paths are cleaned to one exactly if they lead to the same place from
every directory (`CleanedAlikeExactly`). Cleaning is idempotent without trimming; with trimming it is exactly when
no blank came to stand at an end of what cleaning left (`TrimmedCleaningTwice`).
The list parser is an automaton that accepts exactly a grammar; the
hash is shown injective in each of its parts, so keys that differ in one block
or in the tail never collide, and its finalization mix permutes the 2^32 states.

## Model

| member | source | states |
|---|---|---|
| Framing.ReceiveIsFraming | flinter/linkage/linkage.cpp:367-444 | whichever of the three paths a chunk takes, what is told, the outcome and, while it is positive, the receive buffer are those of cutting the buffered bytes followed by the chunk; a known length stays longer than what has arrived |
| Framing.FramedOn | flinter/linkage/linkage.cpp:446-504 | cutting a longer stream is cutting a prefix and going on with what that left, for a prefix-stable handler |
| Framing.ChunkingIndependence | flinter/linkage/linkage.cpp:367-504 | for a prefix-stable handler and every split of a stream into reads: same messages in the same order, same outcome and, while it is positive, same buffer and awaited length as one read of the whole |
| Framing.SplitsAgreeExactlyWhenStable | flinter/linkage/linkage.h:91-97 | splitting a stream in two never matters if and only if the answers of GetMessageLength are prefix-stable |
| Framing.HearOn | flinter/linkage/linkage.cpp:367-504 | for a prefix-stable handler one more chunk read over the last connection continues what the bytes heard so far frame to: same messages, same outcome, same remaining buffer |
| LinkageSpec.Tried | flinter/linkage/abstract_io.h:25-57 | a write takes at most what it was given, and nothing unless it succeeds |
| LinkageRuns.SendNowWrites | flinter/linkage/linkage.cpp:713-775 | what a direct send wrote and queued are its own bytes in order; up to 64 MiB a false answer took nothing and an incomplete write is remembered with its length |
| LinkageRuns.SendNowWatches | flinter/linkage/linkage.cpp:716-772 | after a direct send some watcher is on, and the write watcher if bytes are queued with nothing pending |
| LinkageRuns.QueueKeeps | flinter/linkage/linkage.cpp:105-123 | queueing appends to what was promised, never exceeds 64 MiB, and leaves an owed retry at the front |
| LinkageRuns.SendKeeps | flinter/linkage/linkage.cpp:695-775 | every send keeps the buffer bound, conservation of bytes, exactness of retries and the watchers |
| LinkageRuns.DisconnectKeeps | flinter/linkage/linkage.cpp:657-669 | the same for a disconnect, which leaves the linkage hanging up, with nothing queued if the buffer was dropped |
| LinkageRuns.ShutdownKeeps | flinter/linkage/linkage.cpp:671-693 | the same for one turn of the shutdown action, which leaves a watcher on |
| LinkageRuns.FlushedIsFaithful | flinter/linkage/linkage.cpp:125-153 | writing the owed bytes, or all of them, and dropping what was taken keeps conservation and exact retries |
| LinkageRuns.OnceKeeps | flinter/linkage/linkage.cpp:215-316 | the same for every turn of an event, whatever a handler does in it |
| LinkageRuns.EventKeeps | flinter/linkage/linkage.cpp:185-213 | a whole event keeps all of it, ends with the write watcher on if bytes are queued with nothing pending, and leaves a receive buffer that can go on |
| LinkageRuns.AttachKeeps | flinter/linkage/linkage.cpp:580-639 | the same for attaching, which succeeds exactly when the linkage is watched afterwards |
| LinkageRuns.StepKeeps | flinter/linkage/linkage.cpp:580-775 | every call keeps the invariant between calls |
| LinkageRuns.RetryExactness | flinter/linkage/linkage.cpp:125-163 | in every run with sends of at most 64 MiB, the write after an incomplete one has the same bytes, whatever comes between |
| LinkageRuns.SendStreamConservation | flinter/linkage/linkage.cpp:245-287 | in every such run, until bytes are dropped, the bytes taken by the I/O layer and then the queue are the sends that returned true, in call order |
| LinkageRuns.QueueIsBounded | flinter/linkage/linkage.cpp:105-123 | in every run the queue holds at most 64 MiB |
| LinkageRuns.NoStuckConnection | flinter/linkage/linkage.cpp:175-341 | in every run, between calls, an attached linkage has a watcher on, and the write watcher if it has bytes to write and nothing pending |
| LinkageRuns.DroppedIsSilent | flinter/linkage/linkage.cpp:657-669 | after Disconnect(false) no write reaches the I/O layer, in any continuation |
| LinkageRuns.FalseSendLeaks | flinter/linkage/linkage.cpp:751-768 | a send that returned false put bytes on the wire if and only if a short write leaves more than 64 MiB |
| LinkageRuns.FalseSendsNothing | flinter/linkage/linkage.cpp:713-775 | for all replies a false answer means nothing was sent if and only if the send has at most one byte over 64 MiB |
| LinkageRuns.RetryIsOwedUpTo | flinter/linkage/linkage.cpp:727-749 | an incomplete direct write is remembered with its length and bytes if and only if it has at most 64 MiB |
| LinkageRuns.BigSendIsNotRepeated | flinter/linkage/linkage.cpp:727-749 | above 64 MiB the write after an incomplete one is that of the next send, so the log breaks the rule of exact retries |
| LinkageRuns.IncompleteSendIsRepeatedUpTo | flinter/linkage/linkage.cpp:125-163 | an incomplete direct write is followed by one of the same bytes, for every handler and every list of calls with sends of at most 64 MiB, if and only if it has at most 64 MiB |
| LinkageRuns.DirectIsReachable | flinter/linkage/linkage.cpp:580-639 | attached over an established connection a fresh linkage sends directly, whatever its I/O layer will answer |
| LinkageRuns.IncompleteEndsEvent | flinter/linkage/linkage.cpp:185-341 | for every event and every turn of it, an incomplete reply ends the event with its action pending and exactly the watcher on that the reply asked for: the reader for one that waits to read, the writer for one that waits to write |
| LinkageRuns.FailureEndsEvent | flinter/linkage/linkage.cpp:185-341 | at every turn a closed reply ends the event with zero and any other failure with less, and nothing is pending |
| LinkageRuns.ReadGoesOnExactly | flinter/linkage/linkage.cpp:222-243 | after a successful read the event goes on if and only if a handler asks to hang up, or the messages were taken and more is to be read; otherwise it ends, with failure if they were not |
| LinkageRuns.WriteGoesOnExactly | flinter/linkage/linkage.cpp:245-287 | with nothing to write a linkage that hangs up goes on to shut down and any other is done; a successful write ends the event well |
| LinkageRuns.HandshakeAnswersExactly | flinter/linkage/linkage.cpp:289-302 | when a handshake is complete the handler is told once, and the event ends well if and only if it wants more |
| LinkageRuns.EstablishedAnswersExactly | flinter/linkage/linkage.cpp:602-620 | so for attaching over an established connection, which leaves the linkage attached if and only if the handler wants more |
| LinkageRuns.DisconnectExactly | flinter/linkage/linkage.cpp:657-693 | hanging up asks the I/O layer once unless something is pending or it was closed before; it is closed and answers zero if and only if the layer has shut down |
| LinkageRuns.SendWaitsExactly | flinter/linkage/linkage.cpp:716-772 | what an accepted direct send leaves pending and watched, for each reply |
| LinkageRuns.SendAnswersExactly | flinter/linkage/linkage.cpp:695-775 | a send is accepted if and only if the linkage is attached, not hanging up, and has room for what it cannot write |
| LinkageRuns.EventWaits | flinter/linkage/linkage.cpp:185-341 | after a whole event, whatever handlers did in it, a pending action has exactly the watcher that the last reply asked for |
| LinkageRuns.PendingIsAwaited | flinter/linkage/linkage.cpp:175-341 | in every run, between calls, an attached linkage with a pending read, write or shutdown has exactly the watcher that the last reply of its I/O layer asked for |
| LinkageRuns.ReadInStep | flinter/linkage/linkage.cpp:222-243 | one read keeps what was told equal to what the bytes heard frame to |
| LinkageRuns.MessagesAreTheStream | flinter/linkage/linkage.cpp:367-504 | in every run, also one that detaches and attaches again, the handler was told exactly its connections and the messages the bytes read over each before hanging up frame to, once each and in order, and while it wants more the receive buffer holds exactly the rest |
| LinkageRuns.EstablishedStarts | flinter/linkage/linkage.cpp:602-620 | attaching over an established connection a fresh linkage has told of one connection and heard nothing yet |
| LinkageRuns.HandshakeStarts | flinter/linkage/linkage.cpp:289-316 | so it has when the accept or connect handshake it waited for has just completed |
| Linkages.AbstractIo.Write | flinter/linkage/abstract_io.h:57 | a write gives the next reply and is remembered |
| Linkages.LinkageWorker.Attach | flinter/linkage/linkage_worker.cpp:246-281 | one entry is added, unless there was one; the others are untouched |
| Linkages.LinkageWorker.Detach | flinter/linkage/linkage_worker.cpp:283-307 | exactly this entry is removed |
| Linkages.LinkageWorker.SetWanna | flinter/linkage/linkage_worker.cpp:406-433 | both watchers of this entry, and nothing else, become what is wanted; false if there is none |
| Linkages.LinkageWorker.SetWannaRead | flinter/linkage/linkage_worker.cpp:435-455 | only the read watcher of this entry changes |
| Linkages.LinkageWorker.SetWannaWrite | flinter/linkage/linkage_worker.cpp:457-477 | only the write watcher of this entry changes |
| Linkages.LinkageWorker.OnReadable | flinter/linkage/linkage_worker.cpp:309-318 | runs a read event and releases the linkage unless it answers with more |
| Linkages.LinkageWorker.OnWritable | flinter/linkage/linkage_worker.cpp:320-329 | runs a write event and releases the linkage unless it answers with more |
| Linkages.Linkage.AppendSendingBuffer | flinter/linkage/linkage.cpp:105-123 | appends if the room, as a size_t, suffices |
| Linkages.Linkage.PickSendingBuffer | flinter/linkage/linkage.cpp:125-145 | picks the bytes of the last incomplete write, or all |
| Linkages.Linkage.ConsumeSendingBuffer | flinter/linkage/linkage.cpp:147-153 | removes exactly the first bytes |
| Linkages.Linkage.Send | flinter/linkage/linkage.cpp:695-775 | does what the send function says and keeps the object valid |
| Linkages.Linkage.ShutdownIo | flinter/linkage/linkage.cpp:671-693 | asks the I/O layer once unless closed already, and closes on success |
| Linkages.Linkage.AfterEvent | flinter/linkage/linkage.cpp:318-341 | turns a status into watchers and an answer |
| Linkages.Linkage.Disconnect | flinter/linkage/linkage.cpp:657-669 | does what the disconnect function says and keeps the object valid |
| Linkages.Linkage.DoConnected | flinter/linkage/linkage.cpp:175-183 | watchers first, then the handler is told |
| Linkages.Linkage.DoReceived | flinter/linkage/linkage.cpp:446-504 | the loop delivers what cutting the buffer delivers, tells the handler each message once, and counts what it consumed |
| Linkages.Linkage.CompleteFirst | flinter/linkage/linkage.cpp:396-410 | the missing bytes complete the awaited message; both assertions hold |
| Linkages.Linkage.OnReceived | flinter/linkage/linkage.cpp:367-444 | the three paths end in the state of the receive function; nothing is delivered while hanging up |
| Linkages.Linkage.WriteEvent | flinter/linkage/linkage.cpp:245-287 | one write, the queue shortened by what was taken, the length kept if incomplete |
| Linkages.Linkage.OnEventOnce | flinter/linkage/linkage.cpp:215-316 | each action takes the turn of its function |
| Linkages.Linkage.OnEvent | flinter/linkage/linkage.cpp:185-213 | the loop terminates in the state of the event function |
| Linkages.Linkage.Attach | flinter/linkage/linkage.cpp:580-639 | attaches as the function says; a second attach only tells whether it is the same worker |
| Linkages.Linkage.Detach | flinter/linkage/linkage.cpp:641-655 | turns both watchers off and touches nothing else |
| DecimalValues.CanonicalIsUnique | flinter/types/decimal.cpp:454-469 | two decimals without trailing zeros that are worth the same have the same integer and scale |
| DecimalValues.RoundingIsUnique | flinter/types/decimal.h:28-34 | each of the five modes prescribes one integer for a real |
| DecimalValues.DirectedExactly | flinter/types/decimal.cpp:388-431 | rounding up gives the least integer not below, rounding down the greatest not above, and rounding towards zero the one of them on the side of zero |
| DecimalValues.NearestExactly | flinter/types/decimal.cpp:388-431 | the other two give an integer to which none is nearer, and of two equally near the even one, or the one further from zero |
| DecimalValues.RaisedDividend | flinter/types/decimal.cpp:373-377 | raising the dividend gives the true quotient in units of the last digit kept |
| DecimalValues.RaisedDivisor | flinter/types/decimal.cpp:379-383 | so does raising the divisor |
| Decimals.TruncatingDivide | flinter/types/decimal.cpp:377-386 | quotient and remainder of a division that truncates, the remainder with the sign of the dividend |
| Decimals.Round | flinter/types/decimal.cpp:388-431 | the integer the mode prescribes for n/d, and the sign of rounded minus true |
| Decimals.Decimal.Upscale | flinter/types/decimal.cpp:443-452 | changes integer and scale but not what they are worth |
| Decimals.Decimal.Cleanup | flinter/types/decimal.cpp:454-469 | leaves no trailing zero and the same worth |
| Decimals.Decimal.Add | flinter/types/decimal.cpp:304-320 | the exact sum, canonical, also when added to itself |
| Decimals.Decimal.Sub | flinter/types/decimal.cpp:322-342 | the exact difference, canonical, also from itself |
| Decimals.Decimal.Mul | flinter/types/decimal.cpp:344-349 | the exact product, canonical, also with itself |
| Decimals.Decimal.Div | flinter/types/decimal.cpp:351-441 | refuses a negative scale and a zero divisor; otherwise stores the multiple of the last digit that the mode prescribes for the true quotient, canonical, and returns the sign of stored minus true |
| Decimals.Decimal.Compare | flinter/types/decimal.cpp:516-534 | the order of what the two are worth; 0 exactly when integer and scale are equal |
| Decimals.Scan | flinter/types/decimal.cpp:134-164 | accepts exactly the characters a numeral may have, and keeps the minus and the digits, within the buffer |
| Decimals.Decimal.Parse | flinter/types/decimal.cpp:127-192 | succeeds if and only if the text has fewer than 1024 characters and is a numeral; then holds its canonical value, otherwise nothing changes |
| DecimalText.NumeralExactly | flinter/types/decimal.cpp:134-169 | a text is a numeral if and only if it is a minus or none, digits, and possibly a point with digits behind it, with one digit at least |
| DecimalText.NumeralDenotes | flinter/types/decimal.cpp:134-192 | it denotes the integer that all its digits write, in units of its last digit |
| DecimalText.TextDenotes | flinter/types/decimal.cpp:218-263 | a written number is a numeral with exactly n digits behind the point that denotes it |
| DecimalText.ReadsBack | flinter/types/decimal.cpp:127-274 | what was written, exact or rounded, reads back as the same integer and scale |
| DecimalText.TextIsPlain | flinter/types/decimal.cpp:218-263 | what is written has a digit before the point, no zero in front of another digit there, and a minus exactly if it denotes less than zero |
| DecimalText.PlainIsUnique | flinter/types/decimal.cpp:218-263 | there is one such numeral with n digits behind the point for every number |
| Decimals.Decimal.SerializeWithAppending | flinter/types/decimal.cpp:218-263 | inserting zeros and the point gives the text of the number; the assertion on the scale holds |
| Decimals.Decimal.SerializeWithRounding | flinter/types/decimal.cpp:265-274 | the text of the integer the mode prescribes, and the sign of written minus true |
| Decimals.Decimal.Serialize | flinter/types/decimal.cpp:201-216 | a negative scale writes all digits, a large one pads, a small one rounds |
| Decimals.Decimal.SerializePlainly | flinter/types/decimal.cpp:201-274 | what is written, in all three cases, is a numeral in that form with the digits asked for; it denotes the decimal, or the multiple of the last digit that the mode prescribes, and the code is the sign of written minus true |
| Decimals.ReadsBackRounded | flinter/types/decimal.cpp:127-274 | a canonical decimal worth what a rounded text denotes is the rounded quotient by one, and the code told on which side of the truth it lies |
| Decimals.WriteAndRead | flinter/types/decimal.cpp:127-274 | writing and reading back succeeds if and only if the text has fewer than 1024 characters; then integer and scale are restored if all digits were written, and otherwise are those of the quotient by one that the mode prescribes; also into the same object |
| CouncilRuns.PositionIsRank | flinter/zookeeper/council.cpp:420-430 | the position counted in the list is the number of candidates up to the own one |
| CouncilRuns.BeforeIsNearest | flinter/zookeeper/council.cpp:452-467 | the nodes tracked are as many as asked for, all lower, and the nearest ones |
| CouncilRuns.DecidedIsGood | flinter/zookeeper/council.cpp:414-470 | deciding on an old list seats nobody beyond the first n, and tracks n lower nodes otherwise |
| CouncilRuns.StepKeeps | flinter/zookeeper/council.cpp:113-276 | every step of every process and of the store keeps the invariant |
| CouncilRuns.ElectionSafety | flinter/zookeeper/council.cpp:364-443 | in every run at most n processes hold a seat while their node lives |
| CouncilRuns.NoMissedElection | flinter/zookeeper/council.cpp:263-275 | in every run a waiting process whose turn has come, and that knows the size, tracks a node that is gone, and hearing of it stands again |
| CouncilRuns.StandingIsElected | flinter/zookeeper/council.cpp:432-443 | standing with a list that has it among the first n, and only then, it takes a seat |
| CouncilRuns.SizeStaysLost | flinter/zookeeper/council.cpp:243-275 | a process without size and seat has neither in any continuation in which the election node does not tell it the size |
| CouncilRuns.TurnIsTaken | flinter/zookeeper/council.cpp:263-275 | a process whose turn has come and that knows the size takes the seat of its own node in four steps of its own |
| CouncilRuns.SeatedExactlyIfSizeKnown | flinter/zookeeper/council.cpp:243-443 | in every run a process whose turn has come can be seated without a new word from the election node if and only if it knows the size |
| CouncilRuns.UnreadListStrands | flinter/zookeeper/council.cpp:367-379 | a run in which a list that could not be read leaves the first candidate with its turn come, and no continuation seats it without a new word from the election node |
| CouncilRuns.WalkStartsUnlessSizeLost | flinter/zookeeper/council.cpp:447-453 | the assertion on the predecessors fails if and only if the process stands first and has lost the size; with the size known the walk stays inside the list |
| CouncilRuns.WalkCanFail | flinter/zookeeper/council.cpp:447-448 | a run in which it fails |
| CouncilRuns.LeftBehindExactly | flinter/zookeeper/council.cpp:175-203 | a living node is left behind by its process if and only if an erasure fails, the session is lost, or the process cannot track as many nodes as it has to |
| CouncilRuns.NoOrphans | flinter/zookeeper/council.cpp:113-276 | in every run without such an event every living node belongs to a process |
| CouncilRuns.GivingUpErases | flinter/zookeeper/council.cpp:175-200 | a process with a node that quits, is fired or finds no election does nothing next but ask for its erasure |
| CouncilRuns.ErasureFreesTheNode | flinter/zookeeper/council.cpp:179-200 | an erasure that succeeds takes that node and nothing else away; one that fails leaves the process out for good |
| CouncilRuns.GivingUpEnds | flinter/zookeeper/council.cpp:135-203 | a process that has given up is ready to stand again if and only if it quit or there was no election, and no erasure failed |
| CouncilRuns.MissingEnds | flinter/zookeeper/council.cpp:263-275 | told that a tracked node is gone a process stands again if and only if it has no seat |
| CouncilRuns.DecisionEnds | flinter/zookeeper/council.cpp:432-470 | a decision seats the process if its rank in the list allows it, and otherwise leaves it waiting, or out if it cannot track |
| CouncilNodes.NodeIsCandidate | flinter/zookeeper/council.cpp:384-395 | the name made for a node is understood as its number and name by everybody |
| CouncilNodes.CandidatesAre | flinter/zookeeper/council.cpp:383-395 | the candidates are exactly the numbers of the children that count |
| CouncilNodes.CandidateExactly | flinter/zookeeper/council.cpp:386-394 | a child counts if and only if it is a name, an underscore and ten other characters that are understood as a number |
| CouncilNodes.NumeralsAreUnderstood | flinter/utility.c:245-263 | blanks, a sign or none, and digits to the end are understood as their number, or as -1 if it is negative or does not fit in 32 bits |
| CouncilNodes.OnlyNumeralsAreUnderstood | flinter/utility.c:245-263 | nothing else is understood as a number |
| CouncilNodes.FindCandidates | flinter/zookeeper/council.cpp:364-399 | the loop collects exactly the candidates |
| Councils.CreatedIsUnderstood | flinter/zookeeper/council.cpp:351-358 | the path the store makes is parsed to the number it was given |
| Councils.AttendIsARun | flinter/zookeeper/council.cpp:401-471 | attending from end to end is a run of create, list, decide and erase steps of this process alone, for every reply of the store; it adds the created node, and takes the own one away if it is not listed |
| Councils.FiredIsARun | flinter/zookeeper/council.cpp:175-203 | so is giving up the place, after which the own node is gone if the store erased it, nothing else is, and the process is out for good if it did not |
| Councils.Council.DoQuitClean | flinter/zookeeper/council.cpp:175-203 | the store is asked to erase the own node, if there is one, and the process is out for good if that fails |
| Councils.Council.CreateNodeAsNeeded | flinter/zookeeper/council.cpp:321-362 | succeeds exactly with an old node or a created one that is understood |
| Councils.Council.CountPosition | flinter/zookeeper/council.cpp:420-430 | the loop counts the position |
| Councils.Council.TrackBefore | flinter/zookeeper/council.cpp:451-467 | the loop tracks the nearest predecessors as far as tracking works, never past the front |
| Councils.Council.Stand | flinter/zookeeper/council.cpp:408-470 | decides as the step of the election does, on the candidates in order |
| Councils.Council.Attend | flinter/zookeeper/council.cpp:401-471 | create, list and decide, for every reply of the store |
| Councils.Council.OnElectionNode | flinter/zookeeper/council.cpp:243-261 | a missing node, a bad size and a size, each with its own consequence |
| Councils.Council.OnMissingNode | flinter/zookeeper/council.cpp:263-275 | ignored with a seat, otherwise the process stands again |
| Councils.Council.OnError | flinter/zookeeper/council.cpp:113-133 | a lost session can be resumed, any other error ends the membership |
| ReadWriteLock.Lock.ReaderLock | flinter/thread/read_write_lock.cpp:77-99 | enters unless a writer is inside or queued, else queues |
| ReadWriteLock.Lock.WriterLock | flinter/thread/read_write_lock.cpp:101-123 | enters a free lock, else queues |
| ReadWriteLock.Lock.TryReaderLock | flinter/thread/read_write_lock.cpp:125-142 | enters or changes nothing |
| ReadWriteLock.Lock.TryWriterLock | flinter/thread/read_write_lock.cpp:144-161 | enters or changes nothing |
| ReadWriteLock.Lock.Unlock | flinter/thread/read_write_lock.cpp:163-201 | the last one out lets one writer in, or else all readers |
| ReadWriteLock.StepKeepsInv | flinter/thread/read_write_lock.cpp:77-201 | every step of every thread keeps tokens conserved and loses no grant |
| ReadWriteLock.RunKeepsInv | flinter/thread/read_write_lock.cpp:77-201 | in every run: access is -1 exactly when one writer is inside or owns a token, otherwise readers inside plus reader tokens; waiting threads are queued or have a token; nobody queues at a free lock |
| ReadWriteLock.WriterIsAlone | flinter/thread/read_write_lock.cpp:107-122 | in every run a writer inside is alone, with no token out |
| ReadWriteLock.SomebodyCanMove | flinter/thread/read_write_lock.cpp:163-201 | in every run, while somebody waits somebody else can take a token or unlock |
| ReadWriteLock.QueuedWriterStopsReaders | flinter/thread/read_write_lock.cpp:83-88 | while a writer is queued no step of any thread grants a reader |
| ReadWriteLock.UnlockNeedsHolder | flinter/thread/read_write_lock.cpp:163-201 | an unlock keeps the invariant if and only if the caller holds the lock |
| ReadWriteLock.ReaderEntersExactly | flinter/thread/read_write_lock.cpp:77-142 | in every run a reader enters at once, by either call, if and only if no writer is inside, on the way in or waiting |
| ReadWriteLock.WriterEntersExactly | flinter/thread/read_write_lock.cpp:101-161 | a writer does if and only if nobody is inside or on the way in |
| ReadWriteLock.WhoeverIsRefused | flinter/thread/read_write_lock.cpp:77-161 | whoever may not enter waits, or changes nothing if it only tried |
| ReadWriteLock.UnlockHandsOver | flinter/thread/read_write_lock.cpp:163-201 | the last one out lets exactly one waiting writer in, or if none waits every waiting reader; before that an unlock lets nobody in |
| RouterRuns.EraseCounts | flinter/object_map.h:193-209 | erasing a key destroys an object without references or keeps it aside with its count |
| RouterRuns.ReleaseCounts | flinter/object_map.h:237-269 | giving back a counted reference leaves every other one counted, and the last one to a dropped object destroys it |
| RouterRuns.TakeKeeps | flinter/object_map.h:284-306 | taking the next object counts the new reference |
| RouterRuns.InsertKeeps | flinter/timeout_pool.h:50-67 | a reused number ends the old call and pends the new one |
| RouterRuns.GiveBackKeeps | flinter/linkage/async_router.h:186-207 | a call that has left the pool ends once |
| RouterRuns.StepKeeps | flinter/linkage/async_router.h:169-259 | every section of every thread keeps counts, places and tickets |
| RouterRuns.ReferencesAreConserved | flinter/linkage/async_router.h:169-253 | in every run the counts of objects in use and of dropped ones are their outstanding references, none of them to a destroyed object; no object is destroyed twice and none is lost |
| RouterRuns.CountsArePendingCalls | flinter/object_map.h:284-306 | with nobody in the middle of a call the count of an object is the number of its pending calls |
| RouterRuns.EachEndsOnce | flinter/linkage/async_router.h:111-117 | in every run a reference taken is outstanding or has ended exactly once, by Put, by timeout or, for Add, at once |
| RouterRuns.NothingLeft | flinter/object_map.h:211-235 | with no reference and no key left everything ever made has been destroyed |
| RouterRuns.NextAfter | flinter/object_map.h:284-306 | the call after the one that took a key takes the least key above it, or the least of all after the greatest |
| RouterRuns.EveryKeyInTurn | flinter/object_map.h:284-306 | in every run, while nothing is added or erased, any as many consecutive calls as there are keys take every key exactly once |
| RouterRuns.NextIsOne | flinter/object_map.h:284-306 | unless there are no keys there is exactly one next key |
| RouterRuns.CursorRewinds | flinter/object_map.h:167-209 | a key that comes or goes makes the next call take the least key; another reference does not |
| RouterRuns.KeysExactly | flinter/object_map.h:167-209 | a key is in the map if and only if it was added, or was there and not erased |
| RouterRuns.EndsAsItLeft | flinter/linkage/async_router.h:186-242 | a call taken back ends by Put, an expired one by timeout |
| Routers.ObjectMap.DoAdd | flinter/object_map.h:167-184 | another reference, or a new object and the cursor rewound |
| Routers.ObjectMap.DoErase | flinter/object_map.h:193-209 | destroys or drops, and rewinds the cursor |
| Routers.ObjectMap.Release | flinter/object_map.h:237-269 | one reference less, in the map or among the dropped |
| Routers.ObjectMap.GetNext | flinter/object_map.h:284-306 | the least key above the cursor, or the least of all, with one more reference |
| Routers.ObjectMap.EraseAll | flinter/object_map.h:211-225 | every key is erased |
| Routers.ObjectMap.SetAll | flinter/object_map.h:337-362 | the keys become the given ones for which there was or can be made an object |
| Routers.TimeoutPool.Insert | flinter/timeout_pool.h:50-67 | the number holds the new value and deadline; the old value is given up |
| Routers.TimeoutPool.Erase | flinter/timeout_pool.h:69-80 | removes and returns, or nothing |
| Routers.TimeoutPool.Check | flinter/timeout_pool.h:82-104 | removes exactly what is due, each once |
| Routers.TimeoutPool.Clear | flinter/timeout_pool.h:106-118 | removes everything, each once |
| Routers.CountIsPending | flinter/linkage/async_router.h:169-253 | between calls the count of an object is the number of calls pending in the pool that point to it |
| Routers.EndMirrors | flinter/linkage/async_router.h:231-242 | ending a pending call leaves all others pending and counted |
| Routers.GetMirrors | flinter/linkage/async_router.h:169-183 | a call that gets an object is pending and counted, and one that waited under its number is over |
| Routers.AsyncRouter.Get | flinter/linkage/async_router.h:169-183 | fails only without objects; otherwise the call pends on the next object |
| Routers.AsyncRouter.Put | flinter/linkage/async_router.h:186-207 | succeeds exactly for a pending number, returns its task and ends it |
| Routers.AsyncRouter.TimeOut | flinter/linkage/async_router.h:231-242 | the dropped calls end by timeout, each once, in order |
| Routers.AsyncRouter.Cleanup | flinter/linkage/async_router.h:226-229 | exactly the calls that are due end, by timeout, each once |
| Routers.AsyncRouter.Shutdown | flinter/linkage/async_router.h:219-223 | no call is pending, no object is left, all were destroyed, and there is nothing to wait for |
| Routers.AsyncRouter.AddHost | flinter/linkage/async_router.h:245-253 | the host is there if it was or can be made, and no reference stays |
| Routers.AsyncRouter.Del | flinter/linkage/async_router.h:256-259 | the host is erased and pending calls stay counted |
| Routers.AsyncRouter.SetAll | flinter/linkage/async_router.h:261-266 | the hosts become the given ones and pending calls stay counted |
| Channels.ConnectKeeps | flinter/linkage/easy_server.cpp:1440-1475 | a new channel owns a new handler that nothing else points to |
| Channels.SendKeeps | flinter/linkage/easy_server.cpp:1276-1299 | connecting again adds at most one connection per channel, with the handler of the channel |
| Channels.ReleaseKeeps | flinter/linkage/easy_server.cpp:1129-1154 | for a connection that exists the assertion holds, and the handler goes if nothing needs it |
| Channels.ForgetKeeps | flinter/linkage/easy_server.cpp:1190-1217 | forgetting frees the handler unless a connection needs it |
| Channels.HandlerLifetime | flinter/linkage/easy_server.cpp:1129-1475 | in every run handlers are those of outgoing channels that are connected or may connect again; none is freed twice or while needed, none is lost; the counter counts the outgoing connections |
| Channels.ReleaseAssertion | flinter/linkage/easy_server.cpp:1150-1151 | in every run the assertion holds if and only if the channel is connected, may connect again, or is incoming |
| Channels.EitherOrderFrees | flinter/linkage/easy_server.cpp:1143-1153 | the end of the connection and forgetting the channel commute, and free the handler once |
| Channels.ChannelsComeHome | flinter/linkage/easy_server.cpp:1575-1585 | a channel is looked up in the context that allocated it |
| Channels.ConnectedExactly | flinter/linkage/easy_server.cpp:1129-1475 | a channel is connected after a step if and only if it was accepted, or sent over with a way to connect again that worked, or was connected and did not end |
| Channels.ReconnectableExactly | flinter/linkage/easy_server.cpp:1190-1475 | it may connect again if and only if it was just made, or could before and was not forgotten |
| Channels.LinesAreTheirOwn | flinter/linkage/easy_server.cpp:1390-1438 | in every run no two channels share a connection |
| EasyServers.IoContext.AllocateChannel | flinter/linkage/easy_server.cpp:1575-1585 | the next number of this context, with the highest bit for outgoing ones |
| EasyServers.IoContext.Connect | flinter/linkage/easy_server.cpp:1440-1475 | a new channel with a new handler and its reconnect data |
| EasyServers.IoContext.DoReconnect | flinter/linkage/easy_server.cpp:1390-1438 | a connection that attaches is entered and counted, any other leaves no trace |
| EasyServers.IoContext.DoRealSend | flinter/linkage/easy_server.cpp:1286-1305 | finds the connection, or makes one for an outgoing channel that may connect again |
| EasyServers.IoContext.ReleaseChannel | flinter/linkage/easy_server.cpp:1129-1154 | removes the connection, and the handler if it was the last need |
| EasyServers.IoContext.Forget | flinter/linkage/easy_server.cpp:1190-1217 | removes the reconnect data, and the handler if it was the last need |
| CleanPath.CollapseRenders | flinter/utility.c:84-95 | what the first pass leaves is the components joined by slashes |
| CleanPath.CollapseThenTrim | flinter/utility.c:97-104 | trimming after collapsing is collapsing the trimmed text |
| CleanPath.StageOne | flinter/utility.c:56-119 | the first pass, in a buffer of length plus 7, leaves the trimmed, collapsed and closed text |
| CleanPath.RewindToken | flinter/utility.c:161-163 | finds the start of the last token |
| CleanPath.Parent | flinter/utility.c:151-183 | ".." pops a component, stays at a relative front, and is absorbed at the root |
| CleanPath.OneToken | flinter/utility.c:145-200 | one token does to the result what pushing the component does to the stack |
| CleanPath.Finish | flinter/utility.c:203-217 | never blank, and no trailing slash but the root |
| CleanPath.StageTwo | flinter/utility.c:121-218 | the second pass, in a buffer of length plus 3, leaves the join of the reduced stack |
| CleanPath.MakeCleanPath | flinter/utility.c:220-243 | the clean path is the join of the reduced component stack of the trimmed text |
| CleanPath.CleaningTwice | flinter/utility.c:220-243 | without trimming, cleaning twice is cleaning once |
| CleanPath.CleanLeadsToTheSamePlace | flinter/utility.c:121-218 | from every directory a clean path leads where the path leads, walking one component after another |
| CleanPath.CleanedAlikeExactly | flinter/utility.c:121-218 | two paths are cleaned to the same path if and only if they lead to the same place from every directory |
| CleanPath.BackslashesAreSlashes | flinter/utility.c:84-95 | turning backslashes forward changes nothing |
| CleanPath.BlanksAroundAreIgnored | flinter/utility.c:56-104 | nor do spaces and tabs around the path, when it is trimmed |
| CleanPath.CleanStaysInDomain | flinter/utility.c:220-243 | a clean path has no hidden component if the path had none |
| CleanPath.CleanNeverGrows | flinter/utility.c:121-218 | a clean path is no longer than the path, but for the empty path |
| CleanPath.TrimmedCleaningTwice | flinter/utility.c:56-119 | with trimming, cleaning twice is cleaning once if and only if no component is left, or the last one left does not end in a blank and, in a relative path, the first does not start with one |
| CleanPath.TrimmingTwiceDiffers | flinter/utility.c:97-104 | "a /" is such a path: cleaning it twice differs from cleaning it once |
| Explode.ListMeetsGrammar | flinter/explode.cpp:93-179 | the automaton accepts a text if and only if it is blank or a comma list of numbers and ascending ranges within [0, max], and collects exactly the integers it denotes |
| Explode.WrittenListsHaveTheirValue | flinter/explode.cpp:93-179 | every comma list of numbers and ranges, written in decimal with any blanks between, is accepted and has the integers it denotes |
| Explode.SortUniqueSorts | flinter/explode.cpp:175-177 | sorting and dropping duplicates gives the increasing list of the same elements |
| Explode.ExplodeListInternal | flinter/explode.cpp:93-179 | the loop over the characters is that automaton and its cursor always advances |
| Explode.ExplodeList | flinter/explode.cpp:181-191 | succeeds exactly for a list, and yields its integers in increasing order |
| Explode.ListsCutAtSeparators | flinter/explode.cpp:202-212 | the lists are the stretches between the separators |
| Explode.ExplodeLists | flinter/explode.cpp:193-215 | succeeds exactly when every stretch is a list, and yields one increasing list for each |
| MurmurHash3.ComputeFmix32 | flinter/MurmurHash3.c:68-77 | the steps of the finalization mix |
| MurmurHash3.MurmurHash3_x86_32 | flinter/MurmurHash3.c:94-146 | the loop, the fall-through tail and the finalization compute the hash function |
| MurmurHash3.RotlInjective | flinter/MurmurHash3.c:34-37 | a rotation loses nothing |
| MurmurHash3.RoundInjective | flinter/MurmurHash3.c:110-121 | a body step keeps different states apart for one block, and different blocks for one state |
| MurmurHash3.Fmix32Injective | flinter/MurmurHash3.c:68-77 | the finalization mix loses nothing |
| MurmurHash3.Fmix32Onto | flinter/MurmurHash3.c:68-77 | every word is the finalization of some state, so the mix is a permutation |
| MurmurHash3.MixBlockOnOne | flinter/MurmurHash3.c:110-116 | what the multipliers and the rotation make of the blocks 0 and 1 |
| MurmurHash3.RoundOnZeros | flinter/MurmurHash3.c:117-121 | on a block of zeros a small state is rotated by 13, multiplied by 5 and added to |
| MurmurHash3.Fmix32OnOne | flinter/MurmurHash3.c:68-77 | a state on which the shifts and multipliers of the finalization can be followed |
| MurmurHash3.BlocksAreLittleEndian | flinter/MurmurHash3.c:59-62 | a block is read as the word its bytes make in little-endian order |
| MurmurHash3.TailIsPadded | flinter/MurmurHash3.c:128-139 | the tail is the block that zeros behind it would make |
| MurmurHash3.BlockCollisionFree | flinter/MurmurHash3.c:94-146 | keys of one length that differ inside one aligned block have different hashes, for every seed |
| MurmurHash3.TailCollisionFree | flinter/MurmurHash3.c:94-146 | so do keys that differ only in the tail |
| MurmurHash3.SeedCollisionFree | flinter/MurmurHash3.c:94-146 | two seeds never give one key the same hash |
| MurmurHash3.ZeroByteCounts | flinter/MurmurHash3.c:124-146 | a zero byte behind a key that does not fill its last block changes the hash, since the length counts |

## Left out

- Linkages.LinkageWorker.OnReadable: the OnError and OnDisconnected callbacks are not modelled, nor a handler's own calls from inside them; by then the linkage is on its way out. What a handler does to other linkages of the worker is not modelled either, so their entries are framed only by the worker's own methods.
- Linkages.LinkageWorker.OnWritable: likewise.
- Linkages.Linkage.OnReceived: the null-buffer branch is not modelled, and the size of a single read is not limited to 65536 bytes, so more is covered than can happen.
- Linkages.Linkage.Attach: the I/O layer is trusted to ask for a handshake only, and for an event if it is to wait for one, as both of the library's layers do. Entering a linkage at its worker refuses a null linkage only, so the branch for a failing DoAttach is not modelled.
- Timestamps, jam and idle timeouts, Cleanup and logging of a linkage: they do not touch the buffers, the action or the watchers.
- That Disconnect(true) writes out what is queued is not claimed: with no action pending the source shuts down at once. A jammed write on an event ends the connection.
- Decimals.Decimal.Upscale: scales are unbounded integers; the source keeps them in an int.
- Default scale and default rounding of a decimal, its operators, its constructors from machine integers and the exceptions of constructors: they add nothing to the methods above.
- CouncilRuns.Step: the size is n or unknown; a size that changes during a run is not modelled for the safety claim. A node whose created name is not understood is not entered in the store.
- Councils.Council.TrackBefore: tracked nodes are known by their numbers; the path text in front of them is not kept.
- The ZooKeeper client and its tracker are not part of this model; a tracked node that vanishes may be reported at any later time.
- ReadWriteLock.Lock.ReaderLock: a thread does not lock again what it holds; failures of the system calls are not modelled, nor is the POSIX branch.
- Routers.AsyncRouter.Get: the channel that the source reads from the object after the call is pending is not returned, since another thread may have ended the call by then.
- Routers.ObjectMap.Release: a count is an integer, not a size_t; it is never released below zero in a run.
- Routers.AsyncRouter.TimeOut: the tracks are destroyed after the pool has been updated rather than in the middle of it; both happen under one lock.
- AsyncRouter::Clear, ObjectMap::Clear and ObjectMap::GetRandom are not modelled.
- Channels.ConnectKeeps: holds as long as a context has handed out fewer than 2^63 numbers; after that the highest bit is no longer free.
- Channels.SendKeeps: a handler that calls back into the server while its connection attaches would wait for the mutex its own thread holds; that is not modelled. An accepted connection that fails to attach keeps its entry in the source, and no event models that.
- CleanPath.MakeCleanPath: paths with a component that starts with a dot and is neither "." nor ".." are excluded; that branch of the source does not advance past the token. Null paths and failing allocations are not modelled.
- Explode.ListMeetsGrammar: numbers are unbounded, so the saturation of strtoul is not modelled; it lies above every max.
- Explode.ExplodeListInternal: max is below the greatest int, as the loop over a range up to the greatest int would not end; the null output is not modelled.
- MurmurHash3.MurmurHash3_x86_32: blocks are read in little-endian order; the 128-bit variants are not modelled.
- Sockets, name resolution, TLS, the event library, jobs and thread pools, timers, CGI, trees and their serializers, and the daemon are outside the model.
