# A verified model of the XCB connection

XCB talks to an X server over one byte stream shared by any number of threads.
This project models the client's side of that stream (`src/xcb_in.c`,
`src/xcb_out.c`, `src/xcb_conn.c`, `src/xcb_list.c` and the macros of
`src/xcbint.h`), together with the identifier allocator (`src/xcb_xid.c`) and
the display-name parser (`src/xcb_util.c`), and proves in Dafny what the code is
there to guarantee. `dafny verify dfyconfig.toml` checks all of it.

## What is proved

**Numbers.** Requests are numbered with 64 bits, applications hold 32 of them,
and the server sends back 16. `Protocol` puts client, server and wire into one
machine. The server may send anything the core protocol allows: numbers do not
decrease or run ahead, what is owed an answer gets one before a later number
shows up, and nothing answers a request after its error. In every run the
number rebuilt from 16 bits is the true one (`SequenceNumbersAreExact`), because
the client never lets 65535 requests go by without one that is owed an answer.

**Delivery.** `Router` states what the reading side is for without its data
structures: one queue of answers per request, one queue of events, every
registration remembered for ever. `Refinement` and `Delivery` show that the
code's pruned pending list, current queue, reply map and cookies cannot be told
from it in any run (`ClientIsRouter`). From that come the promises to the
application (`ClientGuarantees`): nothing is lost, repeated or reordered, a
definite "nothing" is final, and discarding one request's replies changes no
other request's.

**Bytes.** `Framing` is the server's view of the outgoing stream.
`OutboundSide` and `Connection` are the imperative writing side over real
arrays: the I/O vector with its two spare slots, the prefix, the queue, the
partial writes. Bytes written and queued always grow by exactly the encoding of
the request. On the way in, `InboundSide` takes packets from a 4096-byte buffer
whatever the chunks in which they arrive, and `ServerPackets` is the server's
own layout, which the client's parsing reads back.

**Threads.** `Threads` is a step relation in which a step is what one thread
does between taking the connection's lock and releasing it; the choice of thread,
of whom a signal wakes, spurious wake-ups, and the outcomes of poll, recv and
writev are all free. `ThreadSafety` proves over all runs that no wake-up is
lost, that writers exclude one another and nobody touches the bytes being
written, that the source's assertions hold, and that written, in-flight and
queued bytes together are exactly the requests issued, frame k being the one
numbered k. `ThreadSteps` says what one step does. `ThreadDelivery` joins this
to `Protocol`: while the connection works, any number of threads and a server
together make a run of `Protocol`, and each thread is handed what that run hands
out (`ThreadsGetTheirAnswers`). `ThreadCalls` says what a call comes to: who
returns has got what was called for (`CallsDeliver`). `ThreadWaking` shows that
nobody is left asleep beside a stored reply or a queued event
(`NobodySleepsBeside`).

**Waiting for an error.** `RequestCheck` decides when `xcb_request_check`
returns.

**Alone.** `LinkedMap`, `Xid` and `Display` are the linked map with its pointer
to the last cell, the identifier allocator and the display-name parser.

## Where the code does less than it says

- `src/xcb.h:274-289` says `xcb_request_check` syncs if needed. It syncs only if
  no later answer is expected, but a later request that expects one may still sit
  in the queue, and the wait flushes no further than the cookie. `CheckMayHang`
  gives the run, `CheckReturnsExactly` the exact condition.
- `src/xcb_out.c:218-224` wants to keep cookie 0 from being given to a request
  that was sent. The guard tests the 64-bit number. `Cookies.ZeroExactly` says
  when a cookie is 0, `LosingRunIs` gives a run, and `ReplyIsLost` the effect: the
  reply is read and stored, and no poll ever hands it out.
- `src/xcb_out.c:187-196` compares the length with the server's limit before
  counting the extra word of the BIG-REQUESTS form, so a request of exactly the
  limit goes out one word too long (`WithinLimitExactly`); and the 32-bit length
  wraps for 2^32 - 1 words (`ReadBackExactly`).
- `src/xcb_xid.c:43-49` sets up the initial range only if the mask's lowest bit is
  set (`SetUpExactly`); without it the allocator counts on through all
  multiples of the increment and comes back to its first identifier, for every
  base and mask (`EvenMaskRepeats`, `NoneTwiceExactly`).
- `_xcb_parse_display` clears the protocol when it fails, except when there is no
  name at all. Host, display and screen are never touched, which is what the
  public function promises (`src/xcb.h:430`).

## Assumptions

The connection is set up and its counters are zero. Byte order is little-endian.
Request numbers stay below 2^63. Applications do not fall 2^31
requests behind (`Timely`, `InWindow`, `Roomy`): cookies have no more bits. The
descriptor does not answer "would block" for ever (`Socket.patience`).
`unsigned long` has 64 bits and `int` has 32.

## Model

| member | source | states |
|---|---|---|
| Sequence.RebuildExact | src/xcb_in.c:102-105 | the 64-bit number rebuilt from 16 bits is the true one if and only if it is among the 65536 numbers from the last one on |
| Sequence.RebuildBoundIsTight | src/xcb_in.c:102-105 | one more unanswered request and the rebuilt number is wrong |
| Sequence.RebuildCompares | src/xcb_in.c:103-105 | the 64-bit comparison made while rebuilding is that of the integers |
| Sequence.Compare32Exact | src/xcbint.h:57 | comparing cookies gives the true distance of the numbers if and only if they are within 2^31 of each other |
| Sequence.Compare32Equal | src/xcbint.h:57 | equal cookies mean equal numbers when these are less than 2^32 apart |
| Sequence.Compare64Exact | src/xcbint.h:56 | the 64-bit comparison is the order of the integers if and only if they are within 2^63 |
| Sequence.WidenExact | src/xcb_in.c:372-374 | widening a cookie against the newest request gives back the number if and only if it is among the 2^32 newest |
| Sequence.PadIsLeast | src/xcbint.h:54 | the padding reaches a multiple of four, with no shorter one doing so |
| Packets.LengthsExact | src/xcb_in.c:145-158 | the two int lengths add up to the packet's size on the wire if and only if the length field is small enough for int arithmetic |
| Packets.ParseConcat | src/xcb_in.c:687-688 | parsing a stream in two pieces is parsing it in one, the cut anywhere |
| ServerPackets.OneReads | src/xcb_in.c:97-182 | any message laid out as the protocol has it, whatever follows, is taken for exactly its bytes, its kind and its number; KeymapNotify, sent by the server or a client, for one without number |
| ServerPackets.StreamReads | src/xcb_in.c:83-182 | a stream of such messages is read back message by message, with nothing left over |
| LinkedMap.List.constructor | src/xcb_list.c:46-55 | a new list is empty, its tail addressing the head cell |
| LinkedMap.List.Put | src/xcb_list.c:72-83 | appends the pair; the tail again addresses the last next cell |
| LinkedMap.List.Remove | src/xcb_list.c:85-101 | removes the oldest pair with the key and returns its data, or changes nothing |
| LinkedMap.List.Unlink | src/xcb_list.c:91-98 | takes one node out anywhere, the last or only one included, and moves the tail back if it must |
| LinkedMap.FindIsLookup | src/xcb_list.c:88-98 | looking the list up is looking up the map it stands for |
| LinkedMap.AppendIsUpdate | src/xcb_list.c:72-83 | appending a key not in use is a map update |
| LinkedMap.WithoutIsRemoval | src/xcb_list.c:85-101 | removing the oldest match of distinct keys is a map removal |
| InboundSide.InboundSide.ReadBlock | src/xcb_in.c:264-302 | returns exactly the next len bytes of the stream, waiting as needed; fails only if the descriptor does |
| InboundSide.InboundSide.InReadBlock | src/xcb_in.c:699-720 | takes len bytes from the queue and then the descriptor, in order, leaving the rest; fails only if the descriptor does |
| InboundSide.InboundSide.NoteNumber | src/xcb_in.c:102-107 | read becomes the rebuilt number, expected at least that |
| InboundSide.InboundSide.NoteSequence | src/xcb_in.c:100-133 | does to the whole reading side what Inbound.Advance does to its value |
| InboundSide.InboundSide.FilePacket | src/xcb_in.c:135-236 | puts the packet in exactly the place Inbound.File says; storing it for its request signals one thread waiting for that request, or nobody if none is listed, queueing it as an event signals the event condition, and dropping it signals nobody |
| InboundSide.InboundSide.TakeBytes | src/xcb_in.c:145-182 | takes exactly the packet's bytes off the front of the stream |
| InboundSide.InboundSide.ReadPacket | src/xcb_in.c:83-237 | takes one whole packet and does what Inbound.Receive does with it, or leaves everything as it was because fewer than 32 bytes are queued |
| InboundSide.InboundSide.InRead | src/xcb_in.c:682-697 | unless the descriptor fails the connection does not, fewer than 32 bytes are queued afterwards, the state is what the packets taken make of it, and something was received or the descriptor had nothing |
| InboundSide.InboundSide.ReadPackets | src/xcb_in.c:687-688 | takes packets until fewer than 32 bytes are queued |
| InboundSide.InboundSide.AppendToQueue | src/xcb_in.c:684-686 | received bytes go behind the queued ones |
| InboundSide.InboundSide.PollForReply | src/xcb_in.c:304-357 | takes what Inbound.Poll finds; a reply goes to the reply pointer alone, an error never there but to the error pointer if the caller passed one, nothing to either if nothing is found, and 0 is returned only while something may still come |
| InboundSide.InboundSide.PollForEvent | src/xcb_in.c:561-574 | a queued event is taken without reading; otherwise what there is is read and the first event this brings is taken; on a failed connection nothing happens |
| InboundSide.InboundSide.DiscardReply | src/xcb_in.c:439-512 | all four paths leave the state Inbound.Discard gives |
| InboundSide.InboundSide.WalkPending | src/xcb_in.c:492-511 | marks the first match or inserts a record in order |
| InboundSide.InboundSide.LinkReader | src/xcb_in.c:390-393 | the list becomes what Readers.Link makes of it |
| InboundSide.InboundSide.UnlinkReader | src/xcb_in.c:404-408 | the list becomes what Readers.Unlink makes of it |
| InboundSide.InboundSide.WakeUpNextReader | src/xcb_in.c:640-648 | signals the first reader, or the event condition if there is none |
| InboundSide.MarkOrInsertAt | src/xcb_in.c:492-511 | where the walk along the pending list acts |
| InboundSide.EatOne | src/xcb_in.c:168-182 | taking one packet's bytes off the stream is parsing one packet |
| InboundSide.EatenTwice | src/xcb_in.c:682-697 | successive reads add up to one |
| InboundSide.ChunksDoNotMatter | src/xcb_in.c:682-697 | packets, state and left-over bytes depend on the byte stream and not on how recv cut it up |
| Refinement.PruneOrdered | src/xcb_in.c:120-129 | pruning keeps exactly the records of requests not completed, in order |
| Refinement.HeadIsSearch | src/xcb_in.c:120-143 | the head of the pruned list is the record a search of everything ever registered would find |
| Refinement.PendIsRegistration | src/xcb_in.c:135-143 | the record applied to an answer is the one registered for its request, whenever that was |
| Refinement.CookieInjective | src/xcb_in.c:113 | inside the window a 32-bit map key names one request |
| Refinement.StoreCurrent | src/xcb_in.c:109-116 | filing finished replies uses a key not in use, so the map holds every earlier request's queue |
| Refinement.FindStored | src/xcb_in.c:313-315 | looking a cookie up among the finished replies finds that request's queue, or that it has none |
| Refinement.ReceiveSimulates | src/xcb_in.c:83-237 | reading a packet does what the router does with its true number |
| Refinement.IssueSimulates | src/xcb_out.c:215-234 | a request, and a sync before it, registers as in the router |
| Refinement.PollSimulates | src/xcb_in.c:304-357 | polling by cookie answers and changes what the router's poll by number does |
| Refinement.MarkOrInsertOrdered | src/xcb_in.c:492-511 | marking or inserting keeps the list sorted and disjoint |
| Refinement.MarkOrInsertMembers | src/xcb_in.c:492-511 | exactly the request's own record changes or appears |
| Refinement.MarkOrInsertRegisters | src/xcb_in.c:492-511 | the list then holds what was registered, the request's record with the discard flag added |
| Refinement.DiscardFinished | src/xcb_in.c:447-459 | the path for a finished request does what the router's discard does |
| Refinement.HeadIsWalk | src/xcb_in.c:478-487 | looking at the head, for the request being read, does what the walk would do |
| Refinement.DiscardSimulates | src/xcb_in.c:439-512 | whichever path discard_reply takes, it does what the router's discard does |
| Refinement.TakeSimulates | src/xcb_in.c:239-251 | events are handed out as the router does |
| Protocol.IssueCounts | src/xcb_out.c:215-234 | what numbering a request does to the three counters |
| Protocol.SyncsInTime | src/xcb_out.c:215-229 | a sync is sent if and only if a void request comes and the number behind its own could not be rebuilt from the last expected answer; the sync's own number still can |
| Protocol.SendKeeps | src/xcb_out.c:215-234 | a request, or the sync put before it, keeps answers owed at most 65535 numbers apart |
| Protocol.EmitClose | src/xcb_out.c:216-217 | the server's next number is less than 2^16 beyond its last, because something owed lies between |
| Protocol.EmitKeeps | src/xcb_out.c:216-217 | whatever the server may send keeps the invariant |
| Protocol.ReadExact | src/xcb_in.c:100-107 | the number the client rebuilds for the next packet is the one it was sent with |
| Protocol.StepKeeps | src/xcb_in.c:83-133 | every step of client, server and wire keeps the invariant |
| Protocol.ComparesExactly | src/xcbint.h:56-57 | in every reachable state the 64-bit comparison of two numbers in use is the order of the integers, and that of their cookies agrees with it if and only if they are within 2^31 |
| Protocol.CountersAdvance | src/xcb_in.c:100-133 | read, completed and expected never go back, and read - 1 <= completed <= read <= expected <= newest |
| Protocol.RunKeeps | src/xcb_in.c:83-133 | so does every run |
| Protocol.SequenceNumbersAreExact | src/xcb_out.c:215-234 | in every run request_read is the true number of the last packet read, and at most 65534 requests follow the last expected answer |
| Delivery.StepInStep | src/xcb_in.c:83-237 | each step of the system is one step of the router, with the same output |
| Delivery.RunInStep | src/xcb_in.c:83-237 | so is each run, from any state that matches |
| Delivery.ClientIsRouter | src/xcb_in.c:83-237 | in every run the application is handed exactly what the router would hand it |
| Guarantees.EventsConserved | src/xcb_in.c:223-251 | events handed out followed by events queued are the events that arrived, in order |
| Guarantees.AnswersConserved | src/xcb_in.c:193-357 | the same for the answers to one request, as long as it is not discarded |
| Guarantees.AnswersCameIn | src/xcb_in.c:304-357 | a packet handed out for a request came in as an answer to it |
| Guarantees.AnswersArrivedAreAll | src/xcb_in.c:193-195 | these are all its replies, and its errors if it was checked |
| Guarantees.EventsArrivedAreAll | src/xcb_in.c:193-236 | those are all packets that are no answer, and the errors of requests sent without flags and not discarded before the error came |
| Guarantees.RegistrationStays | src/xcb_in.c:650-666 | an issued request keeps its registration until it is discarded |
| Guarantees.NothingIsFinal | src/xcb_in.c:328-331 | after a definite "nothing" no packet is filed for the request and no poll finds one |
| Guarantees.BlockingIsNeeded | src/xcb_in.c:332-335 | and while a poll would block a reply may still come and be found |
| Guarantees.AlikeStep | src/xcb_in.c:439-512 | one step after a discard: equal but for the discarded request |
| Guarantees.DiscardIsLocal | src/xcb_in.c:439-512 | a whole run after a discard: equal but for the request's answers and its later errors |
| ClientGuarantees.StoredIsQueue | src/xcb_in.c:313-327 | what the client stores for a request, current or finished, is its queue |
| ClientGuarantees.ProperRun | src/xcb_in.c:83-237 | runs from the start match the router's, output by output |
| ClientGuarantees.AnswersDelivered | src/xcb_in.c:193-357 | answers handed out for a request followed by those stored are all that were read for it, in the order sent |
| ClientGuarantees.AnswersSound | src/xcb_in.c:591-592 | in every run what a poll hands out is an answer the server sent to that request, so for a request the server sends no reply to it can only be an error: the assertion of xcb_request_check |
| ClientGuarantees.EventsDelivered | src/xcb_in.c:223-251 | events handed out followed by those queued are, in the order sent, all packets read that are no answer, and the errors of requests sent without flags and not discarded before the error was read |
| ClientGuarantees.NothingMeansNever | src/xcb_in.c:304-357 | once xcb_poll_for_reply returns 1 with nothing, no later poll finds anything in any continuation |
| ClientGuarantees.DiscardIsLocal | src/xcb_in.c:514-526 | discarding gives every other request the same answers, the discarded one none, and the same events but its errors |
| RequestCheck.SyncIsOutstanding | src/xcb_in.c:585-590 | after the sync an answer above the cookie is outstanding |
| RequestCheck.SyncsExactly | src/xcb_in.c:585-586 | it syncs if and only if nothing beyond the request has been read or is owed and the request is not complete |
| RequestCheck.OutstandingExactly | src/xcb_in.c:585-591 | without the sync one is outstanding exactly if a request above the cookie that is owed an answer gets written |
| RequestCheck.ServeCounts | src/xcb_in.c:395-397 | each step of a server that does what it owes leaves one step less to do |
| RequestCheck.CanServe | src/xcb_in.c:395-397 | and it is never stuck before it is done |
| RequestCheck.WaitEnds | src/xcb_in.c:395-397 | while something is outstanding the wait ends within that number of steps |
| RequestCheck.WaitHangs | src/xcb_in.c:395-397 | when neither, the server may do all it owes and the wait go on |
| RequestCheck.CheckReturnsExactly | src/xcb_in.c:576-594 | without the sync, the check on a void request is certain to return if and only if the request was unwritten, an answer above it is owed for a written request, or a packet that decides it is on its way |
| RequestCheck.WaitEndsUnderway | src/xcb_in.c:395-397 | with such a packet on its way the wait ends |
| RequestCheck.CheckReturnsAfterSync | src/xcb_in.c:588-591 | with the sync the wait for the void request's error always ends |
| RequestCheck.OwedIsReady | src/xcb_in.c:395-397 | a written request that is owed an answer is answered once the server has done what it owes |
| RequestCheck.SyncReturns | src/xcb_in.c:588-589 | so the wait for the sync's own reply ends, too |
| RequestCheck.CheckMayHang | src/xcb_in.c:585-591 | a run of three calls after which checking the first request waits for ever |
| Cookies.ZeroExactly | src/xcb_out.c:221-229 | a request that is sent gets cookie 0 if and only if its number is a multiple of 2^32 |
| Cookies.ZeroFindsNothing | src/xcb_in.c:308-310 | and then no poll finds its reply |
| Cookies.RepliesStay | src/xcb_in.c:308-327 | whatever arrives for a request with cookie 0 stays stored: no poll in any run hands it out |
| Cookies.LosingRunIs | src/xcb_out.c:218-229 | a run of 2^32 requests, each answered, whose last cookie is 0 |
| Cookies.ReplyIsLost | src/xcb_out.c:218-229 | after it the last reply is read and stored, and however the run goes on no poll hands it out |
| Readers.LinkPlace | src/xcb_in.c:383-389 | the first loop stops where Readers.Link puts the reader |
| Readers.UnlinkPlace | src/xcb_in.c:399-409 | the second stops at the node Readers.Unlink removes, or finds none |
| Readers.LinkInserts | src/xcb_in.c:383-393 | linking adds the reader in order of requests, and nothing else |
| Readers.LinkedBehind | src/xcb_in.c:383-393 | it stands behind all that wait for the same request or an earlier one and before all that wait for a later one |
| Readers.UnlinkRemovesOwn | src/xcb_in.c:399-409 | unlinking reaches the thread's own node and removes no other |
| Readers.WaiterIsFound | src/xcb_in.c:209-219 | the walk signals a thread waiting for the request exactly if one is listed |
| Framing.FramesConcat | src/xcb_out.c:193-196 | the server frames a stream in pieces as it does in one |
| Framing.EncodedIsFrame | src/xcb_out.c:168-196 | an encoded request is read back as what was meant, and framing goes on right behind it |
| Framing.EncodeWraps | src/xcb_out.c:195-196 | the one length whose 32-bit form wraps to zero is not |
| Framing.ReadBackExactly | src/xcb_out.c:168-196 | an accepted request is read back if and only if its length fits 32 bits with the extra word |
| Framing.WithinLimitExactly | src/xcb_out.c:187-196 | an accepted request is within the server's limit if and only if it is short or strictly below the limit before the extra word |
| Framing.SyncIsFrame | src/xcb_out.c:126-133 | the sync is one whole GetInputFocus request |
| IoVectors.GatherSkip | src/xcb_conn.c:215-225 | leaving out parts of a vector is leaving out their bytes |
| OutboundSide.OutboundSide.constructor | src/xcb_out.c:304-326 | nothing queued, nothing written |
| OutboundSide.OutboundSide.WriteVec | src/xcb_conn.c:174-230 | bytes sent and the rest of the vector are together what the vector held; what is left starts with a non-empty part; would-block is no failure |
| OutboundSide.AdvanceVec | src/xcb_conn.c:215-228 | takes the first n bytes off the vector and touches nothing around it; the final assertion n == 0 holds |
| OutboundSide.SkipIsSkipped | src/xcb_conn.c:215-225 | what is left is nothing, the lengths then adding up to n, or the rest of the part that byte n is in and the parts behind it |
| OutboundSide.GatherSkipped | src/xcb_conn.c:215-225 | the advanced vector holds the old one's bytes without the first n |
| OutboundSide.OutboundSide.OutSend | src/xcb_out.c:334-343 | sends all bytes of the vector in order, in finitely many calls; fails only if the descriptor does |
| OutboundSide.OutboundSide.CopyToQueue | src/xcb_out.c:42-43 | the part goes behind the queued bytes |
| OutboundSide.OutboundSide.CopyParts | src/xcb_out.c:40-47 | the leading parts that fit are queued; the first one left would not fit |
| OutboundSide.OutboundSide.FillQueue | src/xcb_out.c:40-49 | queued bytes and the remaining vector are together what they were, and nothing remains exactly if everything fits |
| OutboundSide.OutboundSide.SendWithQueue | src/xcb_out.c:51-55 | the queue, put in the slot before the vector, goes out first |
| OutboundSide.OutboundSide.WriteBlock | src/xcb_out.c:38-56 | written and queued bytes grow by exactly the vector's; nothing is written while it fits |
| OutboundSide.OutboundSide.FlushTo | src/xcb_out.c:345-362 | afterwards everything up to the request is written, in order; fails only if the descriptor does |
| Connection.Connection.constructor | src/xcb_conn.c:268-281 | a connection at the start |
| Connection.Connection.NumberRequest | src/xcb_out.c:215-234 | at most one sync is added; number and registration are those of Inbound.Issue |
| Connection.Connection.SendRequest | src/xcb_out.c:124-256 | a request that is not refused is sent unless the descriptor fails: written and queued bytes grow by the sync, if needed, and the request's encoding, and the cookie is the number's; a refused request sends and numbers nothing and shuts the connection down |
| Connection.Connection.SendPrepared | src/xcb_out.c:208-255 | the part under the lock |
| Connection.Connection.WriteRequest | src/xcb_out.c:236-249 | prefix and vector go out as the sync and the encoding |
| Connection.Prepare | src/xcb_out.c:146-197 | opcodes, padding and length are set as the encoding has them; refused exactly if the request is too long |
| Connection.PadAndMeasure | src/xcb_out.c:168-177 | null parts become zero padding and the lengths are summed |
| Connection.SetOpcode | src/xcb_out.c:153-166 | major opcode, and the minor one for extensions; nothing else |
| Connection.SetLength | src/xcb_out.c:194 | the 16-bit length; nothing else |
| Connection.AddPrefix | src/xcb_out.c:236-247 | the sync and the 32-bit length go in front, in a spare slot, without a byte of payload changing |
| Connection.PutPrefix | src/xcb_out.c:236-247 | after which the vector holds the sync and the encoding |
| Connection.PrefixArray | src/xcb_out.c:225-246 | the bytes of the prefix, with the request's first word between sync and length |
| Connection.PrefixIsEncode | src/xcb_out.c:193-247 | prefix and trimmed vector are together the encoding |
| Connection.FilledGather | src/xcb_out.c:169-177 | filling in the padding makes the vector hold the bytes it stands for |
| Connection.GeneratedIsParted | src/c_client.py:818-857 | the vector generated stubs build, each part followed by its padding, is one xcb_send_request accepts |
| ThreadSafety.WakeNextAttends | src/xcb_in.c:640-648 | signalling the next reader leaves no sleeping thread forgotten, whatever came before |
| ThreadSafety.ReadPacketsOnlyReads | src/xcb_in.c:209-235 | reading packets wakes threads and changes nothing else that threads rely on |
| ThreadSafety.EnterKeeps | src/xcb_in.c:383-397 | entering the wait keeps the invariant, the list holding the thread |
| ThreadSafety.ReplyLoopKeeps | src/xcb_in.c:395-414 | so does going round its loop, sleeping, polling or leaving |
| ThreadSafety.LeaveKeeps | src/xcb_in.c:399-413 | so does leaving, the list holding the thread no more |
| ThreadSafety.EventLoopKeeps | src/xcb_in.c:552-557 | the same for the wait for an event |
| ThreadSafety.StartKeeps | src/xcb_conn.c:332-363 | starting to write keeps it |
| ThreadSafety.WriteMoves | src/xcb_conn.c:215-228 | a write of n bytes moves them from vector to wire |
| ThreadSafety.WriterKeeps | src/xcb_conn.c:383-407 | a writing thread back from poll keeps it, however much was read and written |
| ThreadSafety.EndSendKeeps | src/xcb_out.c:339-342 | the end of a send keeps it, everybody waiting for it being awake |
| ThreadSafety.FlushKeeps | src/xcb_out.c:345-362 | a flush keeps it |
| ThreadSafety.LayoutIsEncode | src/xcb_out.c:236-247 | the vector given to write_block is the sync and the encoding |
| ThreadSafety.FlatSplit | src/xcb_out.c:40-47 | the parts that fit and those that do not are all the bytes |
| ThreadSafety.OneMoreFrame | src/xcb_out.c:215-249 | behind whole requests the new bytes are read as one more, after the sync if there is one |
| ThreadSafety.SendKeeps | src/xcb_out.c:208-255 | sending keeps the invariant |
| ThreadSafety.StepKeeps | src/xcb_conn.c:322-407 | every step of every thread keeps it |
| ThreadSafety.RunKeeps | src/xcb_conn.c:322-407 | every run keeps it |
| ThreadSafety.NoLostWakeup | src/xcb_conn.c:322-407 | in every run, if a thread sleeps for a reply or an event then somebody polls, or one that slept is awake and has not run; who waits for a write does so during one |
| ThreadSafety.WritersExclude | src/xcb_conn.c:332-404 | in every run at most one thread writes, writing <= reading <= writing + 1, the queue is empty during a write, and otherwise everything is written or something is queued |
| ThreadSafety.BytesAreRequests | src/xcb_out.c:215-256 | in every run bytes written, in flight and queued are framed as exactly the requests issued, the wire holding the first of them and at least those counted as written |
| ThreadSafety.ReadersAreWaiters | src/xcb_in.c:383-409 | in every run the readers list is exactly the threads in the wait, in order, and the walk finds whom a packet concerns |
| ThreadSafety.AssertionsHold | src/xcb_out.c:345-362 | in every run the assertions on flushing and writing hold wherever a thread comes to them |
| ThreadSafety.WaitersAreWritten | src/xcb_in.c:372-397 | in every run a thread in the wait for a reply has its request counted as written, and on a working connection the server has been given it |
| ThreadSteps.OthersNudge | src/xcb_conn.c:322-407 | whatever other threads do, a thread stays where it is or is woken |
| ThreadSteps.WriteUndisturbed | src/xcb_out.c:210-215 | while one thread writes no step of another changes the bytes it writes |
| ThreadSteps.FrameNumbers | src/xcb_out.c:215-229 | frame k is the request or sync numbered k: a step issues something if and only if its thread is to send and finds no write in progress, and then it is that request, registered with its flags, behind at most one sync |
| ThreadSteps.WireGrows | src/xcb_conn.c:174-230 | bytes reach the server only by a step of the writing thread, and are the next ones of its vector, as many as the kernel takes |
| ThreadSteps.WriterGoesOnOrEnds | src/xcb_out.c:334-343 | the writing thread goes on with exactly the bytes left, or ends with everything issued counted as written |
| ThreadDelivery.StepExplained | src/xcb_conn.c:322-407 | a trace of packets read, requests numbered, writes finished and answers handed out explains what every step does to the connection |
| ThreadDelivery.TraceIsRun | src/xcb_in.c:83-133 | a trace whose packets are a server's is a legal run of Protocol with the same outputs |
| ThreadDelivery.ThreadsAreHanded | src/xcb_in.c:361-416 | however threads, signals, reads, writes and server interleave, what threads are handed is, in order, what the router hands out |
| ThreadDelivery.ThreadsGetTheirAnswers | src/xcb_in.c:361-416 | packets handed to threads for a request followed by those stored for it are all its answers read, in the order sent: none lost, none given twice or to a thread waiting for another request |
| ThreadDelivery.WaiterIsHanded | src/xcb_in.c:395-411 | a thread that looks for its reply leaves the wait with just that answer, or without one if there can be none; otherwise it sleeps while another thread reads and polls while none does |
| ThreadCalls.PacketsAreRead | src/xcb_conn.c:383-407 | while the connection works, every packet that comes in while a thread polls is read at once and in order, and nothing else is |
| ThreadCalls.PollEventTakes | src/xcb_in.c:566-571 | xcb_poll_for_event takes the oldest event queued without reading; if there is none it reads and takes the first event that brought |
| ThreadCalls.StepDelivers | src/xcb_conn.c:322-407 | each step leaves a thread on its way with its call or with what the call is for |
| ThreadCalls.CallsDeliver | src/xcb_in.c:361-416 | in every run in which the connection holds, a thread that is out of a call has got what it is for: its request is on the record, everything issued before its flush is written and framed by the server, the answer to its request was given to it, an event was given to it |
| ThreadWaking.ReplyWakes | src/xcb_in.c:193-221 | after a reply or checked error is stored, some thread waiting for its request is not asleep, if any waits for it |
| ThreadWaking.EventWakes | src/xcb_in.c:223-236 | an event wakes one thread sleeping for one, if there is any |
| ThreadWaking.ReadsHear | src/xcb_in.c:682-697 | reading any number of packets leaves nobody asleep beside a reply or event, if nobody was before |
| ThreadWaking.StepHears | src/xcb_conn.c:322-407 | so does every step of every thread |
| ThreadWaking.NobodySleepsBeside | src/xcb_in.c:193-236 | in every run of threads and a server: if replies are stored for a request some thread waits for, a thread waiting for it or an earlier one is awake or polls; if a thread sleeps for an event, there are as many woken threads as queued events |
| Xid.Allocator.constructor | src/xcb_xid.c:83-92 | the allocator at the start |
| Xid.Allocator.GenerateId | src/xcb_xid.c:37-79 | new state and result are those of Xid.Generate; on a failed connection nothing changes |
| Xid.IncrementIsLowestBit | src/xcb_xid.c:90 | mask & -mask divides the mask an odd number of times, divides 2^32, and is 1 exactly for odd masks |
| Xid.DrawsInOrder | src/xcb_xid.c:43-76 | with the lowest bit in the mask the calls give base&#124;0 to base&#124;mask, then for each answer of the server in order the identifiers of its range, or one failure if it has no extension, no reply or no range left; no assertion fails |
| Xid.HandsOutBlocks | src/xcb_xid.c:43-76 | for a contiguous mask below the base these are the client's own identifiers, block by block |
| Xid.RepeatsExactly | src/xcb_xid.c:69-70 | a list of blocks names no identifier twice if and only if the blocks are disjoint |
| Xid.AssertionHoldsExactly | src/xcb_xid.c:43-70 | the next call's assertion holds if and only if the range does not run past 32 bits |
| Xid.SetUpExactly | src/xcb_xid.c:43-49 | the initial range is ever set up if and only if the mask has the lowest bit |
| Xid.DriftRun | src/xcb_xid.c:43-76 | otherwise the n-th identifier is n + 1 times the increment, wrapped, and the server is never asked |
| Xid.EvenMaskRepeats | src/xcb_xid.c:43-76 | for every base and every mask without the lowest bit the first identifier comes a second time, whatever the server says |
| Xid.NoneTwiceExactly | src/xcb_xid.c:37-79 | for the masks of the protocol and ranges of the client's own, no run of calls gives an identifier twice if and only if the mask has the lowest bit and initial range and server ranges are disjoint |
| Display.StrToUl | src/xcb_util.c:102-112 | spaces, sign, digits, saturation and negation as strtoul has them, and where it stops |
| Display.StrToUlReads | src/xcb_util.c:102-112 | spaces, sign and a printed number are read up to the first character that is no digit; 2^64 and more saturate, a minus negates |
| Display.NothingToRead | src/xcb_util.c:103-112 | without a digit behind spaces and sign nothing is taken |
| Display.StrRChr | src/xcb_util.c:81-97 | the last place of the character |
| Display.ParseDisplay | src/xcb_util.c:65-136 | what every call leaves in the caller's memory: the parts of the name given, whatever the DISPLAY variable says, or those of the variable if there is no name or an empty one; on failure nothing but a cleared protocol, and without any name nothing at all |
| Display.SplitProtocol | src/xcb_util.c:81-95 | what is before the last slash is the protocol |
| Display.ParseAddress | src/xcb_util.c:97-122 | what is before the last colon is the host |
| Display.ParseNumbers | src/xcb_util.c:100-116 | display and screen behind it |
| Display.ParseExactly | src/xcb_util.c:65-136 | a name parses as some parts if and only if it spells them |
| Display.DecimalReads | src/xcb_util.c:102 | a printed number is read back if and only if it fits an int |
| Display.RoundTripExactly | src/xcb_util.c:65-136 | printing and parsing gives back all four parts if and only if the host has no slash and the numbers fit an int |

## Left out

- Handing the socket to another owner (`xcb_take_socket`, `xcb_writev`, `get_socket_back`, `_xcb_in_replies_done`): writers do not exclude one another with it.
- `XCB_REQUEST_RAW` and the workaround for GLX reply lengths: the frame is then the caller's or a server bug's.
- Failing allocations. They shut the connection down as any other failure does; what a failed `_xcb_map_put` loses is not modelled.
- What `xcb_disconnect` frees, and use of a connection while it is being freed.
- Authentication, connection setup and opening sockets; I/O with foreign libraries.
- The extension cache and the cached maximum request length: their results are parameters (`Extension`, `maxBig`).
- The Windows branches, and `select` apart from what it shares with `poll`.
- `xcb_popcount`: arithmetic on one word.
- Lengths of a single write beyond what an int holds (`int n`, `int cur` in `write_vec`).
- Progress of a thread inside poll(2) while another thread reads what it waits for: not guaranteed by the code.
- InboundSide.InboundSide.ReadPacket: packets whose length field is 2^29 - 8 or more are excluded (`Fits`), because the source's int arithmetic overflows on them, as `LengthsExact` shows.
- InboundSide.InboundSide.TakeBytes: the same exclusion.
- InboundSide.InboundSide.InRead: the same exclusion.
- InboundSide.InboundSide.ReadPackets: the same exclusion.
- OutboundSide.OutboundSide.FlushTo: is for a thread that finds no write in progress; the wait for one to end is a step of `Threads`.
- Connection.Connection.SendRequest: is for a thread that finds no write in progress, likewise.
- OutboundSide.OutboundSide.OutSend: does not read while it waits to write; reading and waiting are steps of `Threads`.
- Threads: a thread's step is a function on values, since another thread may run in the middle of `_xcb_conn_wait`; the in-place updates it makes are those of `InboundSide` and `OutboundSide`, where the same operations act on arrays and objects.
- ThreadSafety: packets are any packets; that they come from a server that keeps to the protocol is needed only in `ThreadDelivery`.
- InboundSide: the lists of replies, events, pending records and readers are sequences in fields, so appending, pruning, inserting and taking from the front do not move the pointers to their last cells; such a pointer is modelled once, in `LinkedMap`.
- HAVE_LAUNCHD: the Mac OS X case of a display name that is a path.
