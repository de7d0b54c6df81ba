# libevent 2.0.22, modelled and proved in Dafny

This project models the parts of the vendored libevent 2.0.22 whose correctness
rests on invariants over many calls, and the percent codec of the study
server beside it. Each part comes as a specification (flat byte sequences,
declarative meanings, transition functions), the source's own imperative code as
classes and methods with loops that are proved against it, and theorems over all
inputs or all runs. `dafny verify dfyconfig.toml` checks everything.

**Chained buffers** (`Bytes`, `Chains`, `EvBuffer`, `BufferMoves`,
`BufferPullup`, `BufferReserve`, `BufferCommit`, `BufferSearch`, `BufferRuns`).
`EvBuffer` is the source's struct: a linked list of `Chain` objects with `off` and
`misalign`, `first`, `last`, `total_len`, and `last_with_datap`, a pointer to a
pointer, kept as the chain that holds the link (null for the link in the buffer
itself). A ghost `Layout` says what the pointers stand for. `Shape` is what always
holds (tail, length, order, no sharing), `Valid` adds that all chains behind the
last one with data are empty, `Ready` that no reservation is outstanding. Any run
of the stream operations on two buffers returns what the same operations on flat
sequences return (`BufferRuns.Run`). Two operations can leave `last_with_datap`
behind: evbuffer_add after a reservation, and evbuffer_commit_space with one vector
in the last chain. Both have their exact condition in the contract, and a concrete
buffer that shows it.

**DNS codec** (`DnsNames`, `DnsLabels`, `DnsMessages`, `DnsParsing`,
`DnsEndToEnd`). `NameAt` says declaratively what name a message holds at an
offset; the parser finds exactly these names, and every name the compressing
encoder writes, with every suffix its table remembers, is one of them. `EndToEnd`
takes a query through both codecs of both ends.

**Requests of the resolver** (`RequestState`, `Requests`, `Rings`): the rings of
inflight and waiting requests, transaction ids, nameservers, the pump, resizing,
suspending. Rings are sequences from their head on; `Rings` relates them to the
doubly linked circular lists.

**epoll with a changelist** (`Epoll`, `EvMap`): the kernel is a map from
descriptors to masks that may be disturbed at any time. `InSync` says that the kernel
watches, or will watch after the pending changes, what the events of the descriptor
want.

**getaddrinfo** (`GetAddrInfo`): two sub-requests, a timer and a user who
may cancel at any moment, also inside the callback. `Valid` says who has been told
what, and that the request is freed exactly when all launched sub-requests have
reported.

**Rate limits** (`TokenBucket`, `RateLimit`, `RateLimitRuns`): the bucket arithmetic on
machine integers, and groups whose members cannot always be locked. `Valid` of a
bufferevent: a limit of 0 or less means suspended, suspended in either direction means
the shared timer is pending. `Valid` of a group: a member suspended by the group means
the group is suspended or an unsuspend is pending. `RateLimitRuns.Run` keeps both over
any interleaving of reads, refunds, refills, ticks and changes of membership.

**Scheduler** (`EventState`, `Scheduler`, `Dispatch`, `MinHeap`): the
queues of an event_base, the common timeouts beside the heap, strict priorities.
`Served` says of a common timeout queue that its timer is in the heap in time for the
queue's head, or is active, or is running. The ghost field `history` holds what every
callback saw when it started, and the dispatcher's contracts say what each turn adds to
it and that each callback leads to the events that the next one saw. `Scheduler` uses the heap as a set
with an earliest event; `MinHeap` is the array that provides it.

**Tagged records and generated code** (`Tagging`, `TagBuffers`, `Rpc`,
`RpcRoundTrip`, `RpcAccepts`, `RpcArrays`): the wire format as functions and as the
source's loops over arrays and chained buffers, and the generated marshal, unmarshal
and complete functions as an interpreter of a schema. `RpcAccepts.Accepted` says
which records make a message.

**Random numbers and percent codec** (`Arc4`, `Uniform`, `PercentCodec`).

Where the source disagrees with its own comments the model follows the code: the
comment at the head of event_tagging.c says big-endian nibbles and shows the high
seven bits of a tag first, the code writes the least significant nibble and the low
seven bits first; and the limit MAX_TO_READ_EVER is not applied to a bufferevent that
has its own configuration.

Some promises of the source do not hold in all cases. They are stated with their exact
condition: the refill formula of a token bucket (`TokenBucket.RefillIsMin`), no lost wake-up
after a refund (`TokenBucket.RefillStaysPositive`, `RateLimitRuns.Run`),
`last_with_datap` after evbuffer_add and evbuffer_commit_space
(`EvBuffers.EvBuffer.Add`, `BufferCommit.CommitSpace`), lines that do not depend
on how the input arrives (`BufferSearch.LinesArrive`), names read within the packet
(`DnsNames.WhenOverRead`), tags read within the bytes made contiguous
(`TagBuffers.WhenOutOfReach`), and an encoded name, or a whole
response, that stays inside its buffer (`DnsLabels.CodeEnds`,
`DnsMessages.ServerRequest.WhenItSpills`).

What comes from outside is a parameter or an arbitrary choice: lengths and contents of
packets, clock readings, what sendto returns, which locks are held by other threads,
random draws (up to the first one that can be used), and the calls that a callback
makes.

## Model

| member | source | states |
|---|---|---|
| Chains.Chain.constructor | libevent/libevent-2.0.22-stable/buffer.c:154-189 | a new chain is empty and has room for the requested bytes, at most about twice of them plus the minimum |
| Chains.Chain.Align | libevent/libevent-2.0.22-stable/buffer.c:1719-1726 | realigning moves the data to the start of the memory and changes no byte of it |
| EvBuffers.EvBuffer.constructor | libevent/libevent-2.0.22-stable/buffer.c:347-361 | a new buffer has no chain, no content, and its last_with_datap is the link from the buffer itself |
| EvBuffers.EvBuffer.FindVictim | libevent/libevent-2.0.22-stable/buffer.c:299-304 | the search from last_with_datap ends at the first link whose chain is empty |
| EvBuffers.EvBuffer.ChainInsert | libevent/libevent-2.0.22-stable/buffer.c:290-319 | the new chain takes the place of all empty chains behind the last one with data; content grows by exactly its bytes; last_with_datap moves only when no empty chain was replaced |
| EvBuffers.EvBuffer.AdvanceLastWithData | libevent/libevent-2.0.22-stable/buffer.c:653-667 | last_with_datap moves over the chains with data behind it, up to the first empty one |
| EvBuffers.EvBuffer.AddNewChain | libevent/libevent-2.0.22-stable/buffer.c:1602-1624 | data that does not fit is split between the last chain and a new one; the content grows by exactly the data; says exactly when last_with_datap is still right |
| EvBuffers.EvBuffer.Add | libevent/libevent-2.0.22-stable/buffer.c:1543-1634 | evbuffer_add on any buffer, reservations outstanding or not, unless it would meet the assertion in evbuffer_chain_insert: the result is -1 exactly when the end is frozen or the length would overflow, otherwise the data is appended; last_with_datap is right afterwards if and only if the data did not go into or behind chains that a reservation left empty |
| EvBuffers.EvBuffer.ReadyToAdd | libevent/libevent-2.0.22-stable/buffer.c:1561-1585 | with no reservation outstanding evbuffer_add meets no assertion and keeps last_with_datap right, for all data |
| EvBuffers.EvBuffer.PrependChain | libevent/libevent-2.0.22-stable/buffer.c:1693-1708 | a new first chain holds the bytes; the last chain with data stays the same one |
| EvBuffers.EvBuffer.PrependData | libevent/libevent-2.0.22-stable/buffer.c:1660-1708 | the bytes stand in front of the content, whether they went into the free memory of the first chain, a new chain, or both |
| EvBuffers.EvBuffer.Prepend | libevent/libevent-2.0.22-stable/buffer.c:1636-1716 | the result is -1 exactly when the start is frozen or the length would overflow; otherwise content is data followed by the old content, and the list invariants hold |
| EvBuffers.EvBuffer.DrainWalk | libevent/libevent-2.0.22-stable/buffer.c:990-1008 | the walk passes over exactly the chains that the drained bytes use up, and repairs last_with_datap when it passes over it |
| EvBuffers.EvBuffer.DrainSome | libevent/libevent-2.0.22-stable/buffer.c:983-1014 | a partial drain removes exactly the first bytes |
| EvBuffers.EvBuffer.Drain | libevent/libevent-2.0.22-stable/buffer.c:958-1026 | result and content in all cases: all of it, a part, an empty buffer, a frozen one |
| EvBuffers.EvBuffer.Copyout | libevent/libevent-2.0.22-stable/buffer.c:1043-1088 | returns the first bytes across chains, as many as there are or were asked for, and changes nothing |
| EvBuffers.EvBuffer.Remove | libevent/libevent-2.0.22-stable/buffer.c:1029-1041 | old content is what was handed out followed by what is left; a refused call changes nothing |
| BufferMoves.AppendChain | libevent/libevent-2.0.22-stable/buffer.c:834-846 | the chains of one list are linked behind the other, last_with_datap leads to the same chain as in the source |
| BufferMoves.PrependChains | libevent/libevent-2.0.22-stable/buffer.c:848-864 | the chains of one list are linked in front of the other, last_with_datap still leads to the last chain with data |
| BufferMoves.AddBuffer | libevent/libevent-2.0.22-stable/buffer.c:866-910 | a move loses and doubles no byte: the destination gets all bytes behind its own, the source is empty; refused or empty moves change nothing |
| BufferMoves.PrependBuffer | libevent/libevent-2.0.22-stable/buffer.c:912-956 | the same in front of the destination |
| BufferMoves.MoveWalk | libevent/libevent-2.0.22-stable/buffer.c:1126-1138 | the walk passes over exactly the chains that the moved bytes use up |
| BufferMoves.SpliceChains | libevent/libevent-2.0.22-stable/buffer.c:1140-1157 | whole chains move behind the destination without copying; both lists stay well formed |
| BufferMoves.MoveChains | libevent/libevent-2.0.22-stable/buffer.c:1126-1157 | the bytes of the moved chains are exactly the first ones of the source |
| BufferMoves.RemoveSome | libevent/libevent-2.0.22-stable/buffer.c:1126-1170 | a partial move: the source loses its first bytes, the destination gains them |
| BufferMoves.RemoveBuffer | libevent/libevent-2.0.22-stable/buffer.c:1093-1181 | result and both contents in all cases; every byte is in exactly one of the buffers afterwards |
| BufferPullup.Gather | libevent/libevent-2.0.22-stable/buffer.c:1253-1268 | the copy loop copies whole chains in order and reports whether it passed last_with_datap |
| BufferPullup.PullBytes | libevent/libevent-2.0.22-stable/buffer.c:1253-1275 | both copy steps together copy exactly the wanted bytes and leave exactly the others |
| BufferPullup.FrontOrder | libevent/libevent-2.0.22-stable/buffer.c:1277-1286 | where last_with_datap must lead after a pullup, in each of the three repairs |
| BufferPullup.PullInPlace | libevent/libevent-2.0.22-stable/buffer.c:1233-1240 | pulling up into the free memory of the first chain keeps the content |
| BufferPullup.PullIntoNew | libevent/libevent-2.0.22-stable/buffer.c:1241-1249 | pulling up into a new first chain keeps the content |
| BufferPullup.Pullup | libevent/libevent-2.0.22-stable/buffer.c:1183-1293 | content is unchanged; the result is null exactly when nothing or too much is asked for, else the first chain, which starts with the wanted bytes |
| BufferReserve.FirstWithSpace | libevent/libevent-2.0.22-stable/buffer.c:2046-2052 | the chain at which writing goes on |
| BufferReserve.ExpandSingleChain | libevent/libevent-2.0.22-stable/buffer.c:1744-1853 | content is unchanged, and one chain, the last with data or the one behind it, has the room; a null result changes nothing and happens only for sizes above the limit; says when the next chain is handed out as it is |
| BufferReserve.ScanSpace | libevent/libevent-2.0.22-stable/buffer.c:1878-1904 | the scan adds up exactly the space of the chains it counts |
| BufferReserve.AppendRoom | libevent/libevent-2.0.22-stable/buffer.c:1908-1922 | one more chain makes up for the missing space |
| BufferReserve.ReplaceEmpty | libevent/libevent-2.0.22-stable/buffer.c:1923-1963 | one chain in place of all empty ones makes room |
| BufferReserve.ExpandFast | libevent/libevent-2.0.22-stable/buffer.c:1857-1965 | content is unchanged, and from the last chain with data on at most n chains offer the wanted bytes; says when exactly one chain is added behind all others |
| BufferCommit.NextChain | libevent/libevent-2.0.22-stable/buffer.c:2052-2060 | as long as the vectors are not enough there is another chain |
| BufferCommit.SetupVecs | libevent/libevent-2.0.22-stable/buffer.c:2031-2065 | at most n vectors, being the spaces of consecutive chains in list order, offer the wanted bytes |
| BufferCommit.ReserveSpace | libevent/libevent-2.0.22-stable/buffer.c:620-651 | content is unchanged; a successful reservation offers the bytes in at most n vectors, the spaces of consecutive chains; refused for a frozen end or no vectors, and otherwise only for one vector of a size above the limit |
| BufferCommit.CheckVecs | libevent/libevent-2.0.22-stable/buffer.c:706-716 | the first pass accepts exactly the vectors that start where the chains' space starts |
| BufferCommit.CommitVecs | libevent/libevent-2.0.22-stable/buffer.c:717-727 | the second pass appends exactly what was written, in vector order, and keeps last_with_datap right |
| BufferCommit.CommitLast | libevent/libevent-2.0.22-stable/buffer.c:685-696 | the shortcut for one vector in the last chain: content grows by it; last_with_datap is right if and only if nothing was written or no empty chain lies in between |
| BufferCommit.CommitSpace | libevent/libevent-2.0.22-stable/buffer.c:669-737 | appends exactly the committed bytes in vector order, or returns -1 and changes nothing; all chains behind the last one with data are empty again, with the exact exception of the shortcut |
| BufferCommit.UseFewer | libevent/libevent-2.0.22-stable/buffer.c:699-716 | committing fewer or shorter vectors than were reserved is as good |
| BufferCommit.WhenReservedIsAccepted | libevent/libevent-2.0.22-stable/buffer.c:685-716 | reserved vectors are accepted if and only if they start where writing goes on, or are one vector in the last chain |
| BufferCommit.DataAndTwoEmptyChains | libevent/libevent-2.0.22-stable/buffer.c:620-651 | two calls of evbuffer_reserve_space leave a buffer with one byte and two empty chains behind it |
| BufferCommit.CommitToLose | libevent/libevent-2.0.22-stable/buffer.c:685-696 | a buffer and a vector that are accepted by the shortcut and violate its condition for last_with_datap |
| BufferCommit.CommitLosesTrack | libevent/libevent-2.0.22-stable/buffer.c:685-696 | after these two reservations, committing to the last chain leaves last_with_datap behind |
| BufferCommit.AddToLose | libevent/libevent-2.0.22-stable/buffer.c:1561-1585 | a buffer and a byte for which evbuffer_add meets no assertion but does not keep track |
| BufferCommit.AddLosesTrack | libevent/libevent-2.0.22-stable/buffer.c:1561-1585 | after two reservations that were not committed, evbuffer_add leaves last_with_datap behind |
| Chains.WhenAssertionHolds | libevent/libevent-2.0.22-stable/buffer.c:302-315 | with the last chain filled up, what evbuffer_chain_insert asserts holds if and only if no other empty chain comes before it |
| BufferCommit.AddMeetsAssertion | libevent/libevent-2.0.22-stable/buffer.c:302-315 | a concrete buffer and data with which evbuffer_add reaches the assertion in evbuffer_chain_insert and its condition is false |
| BufferCommit.ReservedThenRefused | libevent/libevent-2.0.22-stable/buffer.c:620-716 | a concrete buffer for which evbuffer_reserve_space returns one vector that evbuffer_commit_space refuses |
| BufferSearch.FindEolChar | libevent/libevent-2.0.22-stable/buffer.c:1327-1352 | the search in pieces of 128 bytes finds the first CR or LF of the whole |
| BufferSearch.FindChar | libevent/libevent-2.0.22-stable/buffer.c:1305-1325 | over chains: the first of the wanted characters in the flat content, with a position that points at it |
| BufferSearch.Strspn | libevent/libevent-2.0.22-stable/buffer.c:1376-1413 | over chains: the length of the run in the flat content |
| BufferSearch.SetPtr | libevent/libevent-2.0.22-stable/buffer.c:2449-2494 | a position is set exactly if it lies in front of the end, and points at that byte of the flat content |
| BufferSearch.PtrMemcmp | libevent/libevent-2.0.22-stable/buffer.c:2500-2534 | 0 exactly when the bytes occur at that place of the flat content |
| BufferSearch.SearchRange | libevent/libevent-2.0.22-stable/buffer.c:2542-2605 | the first occurrence in the flat content from the start on, if it ends by the end; -1 exactly when there is none |
| BufferSearch.StrictEol | libevent/libevent-2.0.22-stable/buffer.c:1453-1459 | CRLF_STRICT ends a line exactly where the two bytes occur |
| BufferSearch.SearchCrlf | libevent/libevent-2.0.22-stable/buffer.c:1460-1477 | the CRLF style: the first LF, with a CR in front of it if there is one |
| BufferSearch.SearchEol | libevent/libevent-2.0.22-stable/buffer.c:1425-1498 | the first end of line of each style in the flat content, and the length of its mark |
| BufferSearch.Readln | libevent/libevent-2.0.22-stable/buffer.c:1500-1537 | hands out the flat content up to the first end of line, takes the mark too, and leaves the rest; nothing changes without a line |
| BufferSearch.LinesRejoin | libevent/libevent-2.0.22-stable/buffer.c:1500-1537 | repeated reading of lines ends, and lines, marks and remainder together are the original content |
| BufferSearch.LinesMean | libevent/libevent-2.0.22-stable/buffer.c:1425-1498 | what the four styles mean for all the lines of a buffer: each ends with LF, with LF and a CR in front if there is one, with CR LF, or with all the CRs and LFs there are, and no line holds, nor does the rest, what would have ended it |
| BufferSearch.NextLineAppend | libevent/libevent-2.0.22-stable/buffer.c:1425-1498 | a line found before more input arrives is the line found afterwards if and only if its mark does not grow |
| BufferSearch.LinesArrive | libevent/libevent-2.0.22-stable/buffer.c:1425-1537 | for every style: input that arrives in two pieces gives the same lines if and only if the pieces do not meet inside a mark of EOL_ANY, where there is one line more; what stays unread is always the same |
| BufferSearch.AnySplitsMark | libevent/libevent-2.0.22-stable/buffer.c:1447-1452 | a CR and an LF that arrive in two pieces: EOL_ANY ends two lines instead of one |
| BufferRuns.NextSize | libevent/libevent-2.0.22-stable/buffer.c:1093-1181 | no operation makes bytes |
| BufferRuns.Exec | libevent/libevent-2.0.22-stable/buffer.c:866-1293 | each operation of the buffers is the same operation on flat byte sequences, results included |
| BufferRuns.Run | libevent/libevent-2.0.22-stable/buffer.c:347-1716 | every run of the stream operations on two new buffers refines the run on flat sequences: all results and both contents |
| BufferRuns.Fifo | libevent/libevent-2.0.22-stable/buffer.c:866-1181 | a pipeline through two buffers is first in, first out, whatever is moved, refused, frozen or rearranged on the way |
| DnsNames.NameUnique | libevent/libevent-2.0.22-stable/evdns.c:943-997 | a message holds at most one name at a place |
| DnsNames.NameStays | libevent/libevent-2.0.22-stable/evdns.c:943-997 | a name that parses depends only on the bytes before the end of the packet: more bytes behind it change nothing |
| DnsNames.HopsBound | libevent/libevent-2.0.22-stable/evdns.c:971-977 | a name is read through pointers at different places, so through no more of them than the packet has bytes |
| DnsNames.ParseSound | libevent/libevent-2.0.22-stable/evdns.c:943-997 | whatever is parsed is the name that the message holds there (section 4.1.4 of RFC 1035) |
| DnsNames.ParseComplete | libevent/libevent-2.0.22-stable/evdns.c:943-997 | every name that the message holds and that fits the output is parsed |
| DnsNames.ParseIsName | libevent/libevent-2.0.22-stable/evdns.c:943-997 | name_parse succeeds with a text if and only if the message holds a name with this text and the text fits; the loop check rejects no name |
| DnsNames.NameParse | libevent/libevent-2.0.22-stable/evdns.c:943-997 | the loop ends on every packet and computes exactly the parse of the bytes before the length, in memory that goes on behind the packet as far as the loop reads |
| DnsNames.WhenOverRead | libevent/libevent-2.0.22-stable/evdns.c:986-990 | bytes behind the packet are read if and only if the name leads to a label that runs out of the packet and that the output has room for; the name is then refused |
| DnsNames.OverReadAt | libevent/libevent-2.0.22-stable/evdns.c:986-990 | a packet whose last byte is 63: 63 bytes behind it are read |
| DnsLabels.TextOfLabels | libevent/libevent-2.0.22-stable/evdns.c:1585-1649 | the labels of a name, put together, are the name without a closing dot |
| DnsLabels.LabelName | libevent/libevent-2.0.22-stable/evdns.c:1610-1640 | a label written in front of a name is a name |
| DnsLabels.CodeDecodes | libevent/libevent-2.0.22-stable/evdns.c:1585-1649 | a written name decodes to its labels, and so does each suffix that the table now knows, at its position |
| DnsLabels.CodeKeepsTable | libevent/libevent-2.0.22-stable/evdns.c:1545-1572 | every table entry (suffix, position) parses at its position to that suffix in the bytes written so far, before and after |
| DnsLabels.RoundTrip | libevent/libevent-2.0.22-stable/evdns.c:943-997 | parsing what was encoded returns the original name, for labels of 1 to 63 bytes |
| DnsLabels.LabelTable.GetPos | libevent/libevent-2.0.22-stable/evdns.c:1545-1554 | the position of the name, -1 if the table does not know it |
| DnsLabels.LabelTable.Add | libevent/libevent-2.0.22-stable/evdns.c:1557-1572 | a name is remembered at most for 128 entries |
| DnsLabels.WriteLabels | libevent/libevent-2.0.22-stable/evdns.c:1610-1640 | the loop writes exactly the labels and pointers of the name behind the message |
| DnsLabels.DnsnameToLabels | libevent/libevent-2.0.22-stable/evdns.c:1585-1649 | the bytes and the result in all cases, with or without a table; bytes in front of the name are untouched, and so are those behind the buffer except for the first, cleared exactly if the name ends behind it |
| DnsLabels.FreshStays | libevent/libevent-2.0.22-stable/evdns.c:1545-1572 | remembering a longer name makes no shorter one known |
| DnsLabels.Shortened | libevent/libevent-2.0.22-stable/evdns.c:1610-1615 | a suffix that the table knows takes two bytes, whatever is in front of it |
| DnsLabels.Remembered | libevent/libevent-2.0.22-stable/evdns.c:1557-1572 | a name that was encoded is in the table afterwards, unless that is full |
| DnsLabels.CodeEnds | libevent/libevent-2.0.22-stable/evdns.c:1610-1646 | with or without a table: a name the table does not help with is encoded if and only if its labels are short and there is room; the closing zero lands one byte behind the buffer if and only if the name needs one, neither it nor what follows one of its dots is in the table, and the rest exactly fills the buffer |
| DnsMessages.RequestDataBuild | libevent/libevent-2.0.22-stable/evdns.c:1665-1690 | a query is exactly its header, name, type and class, or the error of the name |
| DnsMessages.WriteNameData | libevent/libevent-2.0.22-stable/evdns.c:1933-1942 | the length of a name's data, filled in afterwards, is the length of the bytes behind it |
| DnsMessages.WriteItem | libevent/libevent-2.0.22-stable/evdns.c:1924-1950 | one resource record, written or given up as too long; the byte behind the buffer is cleared exactly if the record spills |
| DnsMessages.WriteItems | libevent/libevent-2.0.22-stable/evdns.c:1915-1952 | all records of a section in order |
| DnsMessages.ServerRequest.AddReply | libevent/libevent-2.0.22-stable/evdns.c:1744-1814 | a record goes behind those of its section, unless the answer has been formatted |
| DnsMessages.ServerRequest.FormatResponse | libevent/libevent-2.0.22-stable/evdns.c:1876-1971 | the response is the whole message if it fits 512 bytes, else its first 512 bytes with the truncated bit set; of a message that overflows the buffer it holds what was written before; an error changes nothing |
| DnsMessages.MostlyUnwritten | libevent/libevent-2.0.22-stable/evdns.c:1876-1971 | one question and a record of 1500 bytes: 30 of the 512 bytes that go out are those of the message |
| DnsMessages.ServerRequest.WriteMessage | libevent/libevent-2.0.22-stable/evdns.c:1876-1953 | the message in the buffer of 1500 bytes, -1 if it is too long, or the error of a question; byte 1500 is cleared if and only if the message spills, and the bytes behind it never change |
| DnsMessages.ItemSpills | libevent/libevent-2.0.22-stable/evdns.c:1924-1950 | a record spills if and only if its name, or the name that is its data, ends exactly at the end of the buffer with a closing zero to come and no help from the table |
| DnsMessages.ItemsSpill | libevent/libevent-2.0.22-stable/evdns.c:1915-1952 | a section spills if and only if one of its records does, the ones before it written |
| DnsMessages.QuestionSpills | libevent/libevent-2.0.22-stable/evdns.c:1900-1911 | a question spills if and only if its name does, and the message is then given up |
| DnsMessages.ServerRequest.WhenItSpills | libevent/libevent-2.0.22-stable/evdns.c:1876-1953 | formatting a response writes the byte behind its buffer if and only if the name of some question, or a name in some record of the three sections, ends exactly there |
| DnsMessages.SpillsAt | libevent/libevent-2.0.22-stable/evdns.c:1876-1953 | one question and two answers whose response writes the byte behind the buffer |
| DnsParsing.RequestParse | libevent/libevent-2.0.22-stable/evdns.c:1202-1271 | the questions of a request are exactly those in the packet, or the packet is dropped |
| DnsParsing.ReadAnswers | libevent/libevent-2.0.22-stable/evdns.c:1085-1155 | the loop over the answers is exactly the fold over the records of the packet |
| DnsParsing.ReadAuthority | libevent/libevent-2.0.22-stable/evdns.c:1157-1185 | the loop over the authority section takes the least TTL of its SOA records |
| DnsParsing.ReplyParse | libevent/libevent-2.0.22-stable/evdns.c:1001-1196 | what the client is told about a response, for every packet: the outcome, and either the addresses, or the name of a pointer record, with their ttl; what that is of the server's records says DnsEndToEnd.EndToEnd |
| DnsEndToEnd.QueryRead | libevent/libevent-2.0.22-stable/evdns.c:1202-1271 | the server reads from the client's query exactly the name, type and class that were asked |
| DnsEndToEnd.ItemSound | libevent/libevent-2.0.22-stable/evdns.c:1924-1950 | a written record can be read where it starts, and ends where the message ends |
| DnsEndToEnd.ItemsSound | libevent/libevent-2.0.22-stable/evdns.c:1915-1952 | all records of a section can be read one behind the other, through compressed names |
| DnsEndToEnd.ChunksAreAddrs | libevent/libevent-2.0.22-stable/evdns.c:1094-1112 | the addresses that are copied are the first ones of the record, in order |
| DnsEndToEnd.OtherRead | libevent/libevent-2.0.22-stable/evdns.c:1094-1155 | a record that was not asked for is passed over and changes nothing |
| DnsEndToEnd.WantedRead | libevent/libevent-2.0.22-stable/evdns.c:1094-1150 | one record with addresses: they are collected behind the others, at most 32, and the TTL is the least |
| DnsEndToEnd.AnswersRead | libevent/libevent-2.0.22-stable/evdns.c:1085-1155 | the client collects the first 32 addresses of all records, in order, and the least TTL |
| DnsEndToEnd.PtrAnswersRead | libevent/libevent-2.0.22-stable/evdns.c:1085-1155 | for a pointer request the client takes the name in the data of the first pointer record, and its ttl, and passes over all others |
| DnsEndToEnd.PtrName | libevent/libevent-2.0.22-stable/evdns.c:1113-1122 | a host name is parsed into the shorter memory for a pointer name exactly as it was written, if it fits |
| DnsEndToEnd.SoaRead | libevent/libevent-2.0.22-stable/evdns.c:1157-1185 | one SOA record, its two names written out: the least of the ttl so far, its own ttl and the last of its five numbers |
| DnsEndToEnd.AuthorityRead | libevent/libevent-2.0.22-stable/evdns.c:1157-1185 | over the whole authority section the client keeps the least ttl and minimum of the SOA records |
| DnsEndToEnd.QuestionMatches | libevent/libevent-2.0.22-stable/evdns.c:1047-1079 | the client finds its own question in the response, also without regard to case |
| DnsEndToEnd.MessageRead | libevent/libevent-2.0.22-stable/evdns.c:1876-1971 | a message that fits is laid out as the client expects: the header counts the question and the records of each of the three sections, and all of these can be read one behind the other |
| DnsEndToEnd.TruncatedHeader | libevent/libevent-2.0.22-stable/evdns.c:1954-1958 | the truncated bit reaches the client |
| DnsEndToEnd.EndToEnd | libevent/libevent-2.0.22-stable/evdns.c:1001-1196 | a query for A, AAAA or PTR records and its response through both codecs: the client gets the addresses in order (the first 32) and the least ttl, or the name of the first pointer record and its ttl; without any it learns so, with the least ttl of the SOA records; a response of more than 512 bytes is reported as truncated (sections 3.3.12, 4.1 and 4.2.1 of RFC 1035) |
| DnsEndToEnd.Exchange | libevent/libevent-2.0.22-stable/evdns.c:1665-1971 | the same, as a run of the code of both ends |
| DnsEndToEnd.ResponseIsNoRequest | libevent/libevent-2.0.22-stable/evdns.c:1225 | a response is never taken for a request |
| DnsEndToEnd.FlagsKept | libevent/libevent-2.0.22-stable/evdns.c:1215-1239 | the server takes over the id, and of the flags exactly recursion desired and checking disabled |
| DnsEndToEnd.QuestionsRead | libevent/libevent-2.0.22-stable/evdns.c:1242-1258 | a draft with any number of questions: the server reads back exactly these, in order |
| DnsEndToEnd.SameNameMeans | libevent/libevent-2.0.22-stable/evdns.c:1057-1063 | names are compared byte by byte, letters without regard to case if asked for |
| DnsEndToEnd.OtherQuestion | libevent/libevent-2.0.22-stable/evdns.c:1047-1079 | a response to another question is refused |
| DnsEndToEnd.StrangePacket | libevent/libevent-2.0.22-stable/evdns.c:1018-1033 | a packet is ignored if and only if it is too short, no request has its id, or it is no response |
| DnsEndToEnd.ErrorRead | libevent/libevent-2.0.22-stable/evdns.c:853-880 | the client learns exactly the error code that the server sets, or that it is an unknown one |
| RequestState.FoundOnce | libevent/libevent-2.0.22-stable/evdns.c:478-493 | a lookup by transaction id has one possible result |
| RequestState.FreeId | libevent/libevent-2.0.22-stable/evdns.c:1303-1315 | with fewer than 65535 requests in flight some id is free, so picking one can end |
| RequestState.InsertedInflight | libevent/libevent-2.0.22-stable/evdns.c:2670-2684 | a request under an unused id goes into the ring of its id; every request is still in exactly one place |
| RequestState.RemovedInflight | libevent/libevent-2.0.22-stable/evdns.c:2632-2667 | a request leaves its ring; every other one is still in exactly one place |
| RequestState.RemovedWaiting | libevent/libevent-2.0.22-stable/evdns.c:2632-2667 | the same for the waiting ring |
| RequestState.RehashStep | libevent/libevent-2.0.22-stable/evdns.c:3345-3351 | moving one request to the new table: each inflight request is in exactly one of the two |
| RequestState.SuspendStep | libevent/libevent-2.0.22-stable/evdns.c:2406-2428 | one request goes from its ring to the front of the waiting ring |
| RequestState.ServerChanged | libevent/libevent-2.0.22-stable/evdns.c:566-577 | the count of good nameservers follows the change of one of them |
| Requests.Base.constructor | libevent/libevent-2.0.22-stable/evdns.c:3842-3905 | a new base satisfies the invariant, with at most 64 requests in flight |
| Requests.Base.Find | libevent/libevent-2.0.22-stable/evdns.c:478-493 | looking into the one ring of the id finds the inflight request with it, or there is none at all |
| Requests.Base.TransactionIdPick | libevent/libevent-2.0.22-stable/evdns.c:1303-1315 | the id is not 0xffff and no inflight request has it |
| Requests.Base.NameserverPick | libevent/libevent-2.0.22-stable/evdns.c:1320-1353 | the first nameserver that is up from the head on, and the ring goes on behind it; the next one when none is up; none only for an empty ring; the assertion in the loop holds |
| Requests.Base.NameserverFailed | libevent/libevent-2.0.22-stable/evdns.c:556-614 | exactly the inflight requests that were never sent to it move to a nameserver that is up, if there is one; nothing else about a request changes |
| Requests.Base.Transmit | libevent/libevent-2.0.22-stable/evdns.c:2215-2264 | the request is sent and timed, or stays marked while its nameserver's socket is blocked; it keeps its place |
| Requests.Base.TransmitAll | libevent/libevent-2.0.22-stable/evdns.c:2322-2344 | unless a nameserver fails meanwhile, afterwards no request is marked while its nameserver's socket is free; every request stays in its place, timed or marked |
| Requests.Base.Pump | libevent/libevent-2.0.22-stable/evdns.c:733-759 | moves exactly as many requests as there is room for, first come first served, never above the maximum, and ends; ids of requests in flight do not change |
| Requests.Base.RequestFinished | libevent/libevent-2.0.22-stable/evdns.c:647-697 | the request is gone, the right counter goes down, and the pump fills the room |
| Requests.Base.Cancel | libevent/libevent-2.0.22-stable/evdns.c:2791-2824 | cancelling removes exactly this request, from the ring its nameserver says |
| Requests.Base.Submit | libevent/libevent-2.0.22-stable/evdns.c:2773-2788 | into flight with a nameserver, to the end of the waiting ring without |
| Requests.Base.Resolve | libevent/libevent-2.0.22-stable/evdns.c:2696-2788 | a new request goes into flight exactly when there is room and a nameserver, to the nameserver whose turn it is, and waits at the end otherwise |
| Requests.Base.TimeoutCallback | libevent/libevent-2.0.22-stable/evdns.c:2146-2181 | the timeout counts against the request's nameserver: one too many in a row takes it down and the count starts anew, and no other nameserver's count changes; a request that was sent too often is given up; any other has been sent once more and timed, or is marked because its nameserver's socket is blocked; nothing else moves |
| Requests.Base.BlameNameserver | libevent/libevent-2.0.22-stable/evdns.c:2157-2161 | one timeout more for this nameserver, which goes down when they are too many |
| Requests.Base.Hear | libevent/libevent-2.0.22-stable/evdns.c:1386 | a datagram from the nameserver ends the row of timeouts |
| Requests.Base.ReplyHandle | libevent/libevent-2.0.22-stable/evdns.c:853-941 | the request is done; a good reply brings the nameserver that the request had back up, and no other |
| Requests.SilentGoesDown | libevent/libevent-2.0.22-stable/evdns.c:2146-2163 | over any stretch of a run: when one more of a nameserver's requests have timed out than are allowed in a row, and it was neither heard of nor brought back, it is down |
| Requests.Rounds | libevent/libevent-2.0.22-stable/evdns.c:1320-1353 | with all nameservers up, as many picks as there are of them give each its turn, in order |
| Requests.Base.Retransmit | libevent/libevent-2.0.22-stable/evdns.c:2169-2179 | a request that is neither timed nor marked is sent once more and timed, or marked; it goes to the nameserver whose turn it is, unless that one fails meanwhile |
| Requests.Base.SetMaxRequestsInflight | libevent/libevent-2.0.22-stable/evdns.c:3329-3358 | the new table has (max+4)/5 rings; requests, counters and every lookup stay the same |
| Requests.Base.ClearNameserversAndSuspend | libevent/libevent-2.0.22-stable/evdns.c:2373-2436 | everything in flight waits in front of what waited before, last request first, and will be sent as if for the first time; no request is lost |
| Requests.Base.Resume | libevent/libevent-2.0.22-stable/evdns.c:2446-2454 | afterwards nothing waits, or the maximum is in flight, or there is no nameserver |
| Requests.Base.NameserverAdd | libevent/libevent-2.0.22-stable/evdns.c:2462-2541 | the new nameserver is counted as good |
| Requests.Base.NameserverUp | libevent/libevent-2.0.22-stable/evdns.c:616-635 | the nameserver is counted as good again, and its timeouts anew |
| Requests.Base.Writable | libevent/libevent-2.0.22-stable/evdns.c:1479-1495 | unless a nameserver fails meanwhile, no request stays marked while its nameserver's socket is free; none changes its place |
| Requests.Base.SendProbe | libevent/libevent-2.0.22-stable/evdns.c:2292-2317 | a probe of this nameserver goes into flight even above the maximum, under an id of its own |
| Requests.Perform | libevent/libevent-2.0.22-stable/evdns.c:640-760 | each step keeps the invariant, removes or adds no other request than its own, and does to the nameservers what it may: only timeouts count against one, only what comes from it or a new probe brings it back |
| Requests.Run | libevent/libevent-2.0.22-stable/evdns.c:640-760 | over every run: counters equal ring sizes, a request has a nameserver exactly when it is in flight, it is in the ring of its id, ids in flight are distinct, an inflight request is timed or marked to be sent, and no request is lost or invented; the trace of its states is one that SilentGoesDown speaks of |
| Rings.Insert | libevent/libevent-2.0.22-stable/evdns.c:2670-2684 | link by link: the circular list gets the node at its tail |
| Rings.Remove | libevent/libevent-2.0.22-stable/evdns.c:2632-2667 | link by link: the node leaves from anywhere; a removed head is followed by the next node |
| Epoll.ApplyOneChange | libevent/libevent-2.0.22-stable/epoll.c:173-330 | for an open fd a call that is issued makes the kernel watch exactly what the change asks for, whatever the kernel held before (the ADD and MOD retries and the tolerated DEL errors); other fds are untouched |
| EvMap.SlotSet | libevent/libevent-2.0.22-stable/evmap.c:728-799 | what evmap_check_integrity checks survives a change of one slot |
| EvMap.EventBase.MakeSpace | libevent/libevent-2.0.22-stable/evmap.c:201-223 | more slots change nothing that is seen from outside |
| EvMap.EventBase.GetOrConstruct | libevent/libevent-2.0.22-stable/evmap.c:615-644 | the fd's change is the one its index leads to; a new change asks for what the kernel already watches |
| EvMap.EventBase.ChangelistAdd | libevent/libevent-2.0.22-stable/evmap.c:646-675 | after recording an add the pending changes ask for the old interest plus the new |
| EvMap.EventBase.ChangelistDel | libevent/libevent-2.0.22-stable/evmap.c:677-726 | after recording a delete the pending changes ask for the old interest without the deleted |
| EvMap.EventBase.DirectAdd | libevent/libevent-2.0.22-stable/epoll.c:351-367 | without a changelist the kernel watches the union at once |
| EvMap.EventBase.DirectDel | libevent/libevent-2.0.22-stable/epoll.c:369-383 | without a changelist the kernel watches what is left at once |
| EvMap.EventBase.IoAdd | libevent/libevent-2.0.22-stable/evmap.c:262-331 | result and event list in all cases; an fd whose interest is in step with its events stays in step |
| EvMap.EventBase.IoDel | libevent/libevent-2.0.22-stable/evmap.c:335-387 | result and event list in all cases; an fd in step stays in step |
| EvMap.TurnedMeans | libevent/libevent-2.0.22-stable/evmap.c:292-299 | what is asked of the backend is exactly the difference between what the events wanted before and want now |
| EvMap.TooManyMeans | libevent/libevent-2.0.22-stable/evmap.c:300-304 | an event is refused exactly if a count of the fd's events would not fit 16 bits |
| EvMap.EventBase.ApplyChanges | libevent/libevent-2.0.22-stable/epoll.c:332-349 | every change is applied to its own fd, and the result is -1 exactly if one fails |
| EvMap.EventBase.RemoveAll | libevent/libevent-2.0.22-stable/evmap.c:559-578 | the changelist is empty and no slot has an index into it |
| EvMap.EventBase.Dispatch | libevent/libevent-2.0.22-stable/epoll.c:385-402 | afterwards the kernel watches an open fd for exactly what its events want if and only if the fd was in step or a call was issued for it |
| EvMap.Run | libevent/libevent-2.0.22-stable/epoll.c:173-402 | any run of adds, deletes, polls and disturbances, with either backend: after a poll the kernel mask of every fd that was left alone is the one its events want, the same as applying each change at once; index entries and slots match one to one throughout |
| GetAddrInfo.Lookup.constructor | libevent/libevent-2.0.22-stable/evdns.c:4625-4654 | launched sub-requests are working, nobody has been told, nothing is freed |
| GetAddrInfo.Lookup.Timeout | libevent/libevent-2.0.22-stable/evdns.c:4234-4284 | the skew timeout tells the user what there is, once, and frees nothing yet |
| GetAddrInfo.Lookup.GotResolve | libevent/libevent-2.0.22-stable/evdns.c:4300-4475 | each sub-request's callback, in any order and also when the user cancels inside the callback: the user is never told twice, the request is freed only when all launched sub-requests have reported |
| GetAddrInfo.ToldCode | libevent/libevent-2.0.22-stable/evdns.c:4184-4204 | in every state reached, unless the user has canceled: all is well exactly if there are addresses; without them the user is told that the name does not exist, that there is no data, or of a failure, exactly as the sub-request that decides has reported NOTEXIST, nothing wrong, or anything else |
| GetAddrInfo.NowhereFound | libevent/libevent-2.0.22-stable/evdns.c:4184-4475 | if every launched sub-request reports NOTEXIST the user is told once, that the name does not exist |
| GetAddrInfo.Lookup.CancelByUser | libevent/libevent-2.0.22-stable/evdns.c:4660-4675 | cancelling tells the user nothing yet, frees nothing, and leaves no sub-request working |
| GetAddrInfo.Lookup.UserCancel | libevent/libevent-2.0.22-stable/evdns.c:4660-4675 | a request that is already done cannot be cancelled; otherwise both sub-requests are |
| GetAddrInfo.Launch | libevent/libevent-2.0.22-stable/evdns.c:4625-4657 | without a launched sub-request the user is told at once and nothing is left to free |
| GetAddrInfo.Play | libevent/libevent-2.0.22-stable/evdns.c:4234-4475 | every interleaving of results, skew timeout and cancel keeps: told at most once, with the right error and addresses, freed exactly when all have reported |
| GetAddrInfo.Settle | libevent/libevent-2.0.22-stable/evdns.c:4234-4475 | from any state reached, once the outstanding callbacks have run the user callback ran exactly once and the request was freed exactly once |
| TokenBucket.RefillIsMin | libevent/libevent-2.0.22-stable/bufferevent_ratelim.c:72-110 | the overflow-avoiding refill equals min(maximum, limit + ticks * rate) if and only if the limit is not above the maximum, or the refill is large enough to wrap around |
| TokenBucket.RefillAboveMaximum | libevent/libevent-2.0.22-stable/bufferevent_ratelim.c:72-110 | limit 11, maximum 10, rate 1: a tick later the limit is 12 |
| TokenBucket.RefillStaysPositive | libevent/libevent-2.0.22-stable/bufferevent_ratelim.c:72-110 | a refill leaves a positive limit positive if and only if the limit is not above the maximum, or the sum stays below 2^63, or it passes 2^64 |
| TokenBucket.RefillAbove | libevent/libevent-2.0.22-stable/bufferevent_ratelim.c:72-110 | a refill of a limit above the maximum adds without a bound, until the sum wraps around at 2^63; then it is the wrapped sum, or the maximum |
| TokenBucket.RefillSplits | libevent/libevent-2.0.22-stable/bufferevent_ratelim.c:72-110 | refilling at an intermediate tick changes nothing, for every limit, within the maximum or above it |
| TokenBucket.TicksAdd | libevent/libevent-2.0.22-stable/bufferevent_ratelim.c:80-90 | ticks add up also where the 32-bit counter wraps around |
| TokenBucket.TicksBelow | libevent/libevent-2.0.22-stable/bufferevent_ratelim.c:80-90 | never more ticks are counted than have passed |
| TokenBucket.SinceAccess | libevent/libevent-2.0.22-stable/bufferevent_ratelim.c:199-310 | from an access on, what is read and what is left grow by at most the rate, however the 32-bit tick wraps |
| TokenBucket.Throughput | libevent/libevent-2.0.22-stable/bufferevent_ratelim.c:199-310 | however reads fall, and whenever the bucket was updated last, a bucket within its maximum lets through at most maximum + rate * T bytes in any window of T ticks |
| RateLimit.Bev.Suspend | libevent/libevent-2.0.22-stable/bufferevent.c:65-75 | one reason more to be suspended; the event is not active |
| RateLimit.Bev.Unsuspend | libevent/libevent-2.0.22-stable/bufferevent.c:77-87 | one reason less; the event is active again only when none is left and the direction is enabled |
| RateLimit.Bev.Enable | libevent/libevent-2.0.22-stable/bufferevent.c:406-427 | an enabled direction is active exactly when nothing suspends it |
| RateLimit.Bev.Disable | libevent/libevent-2.0.22-stable/bufferevent.c:497-510 | a disabled direction keeps its reasons |
| RateLimit.Bev.OwnMax | libevent/libevent-2.0.22-stable/bufferevent_ratelim.c:199-225 | the own bucket, refilled first, bounds the next transfer; no wake-up is lost if and only if each direction is suspended already or its refill does not wrap around |
| RateLimit.Bev.OwnDecrement | libevent/libevent-2.0.22-stable/bufferevent_ratelim.c:274-292 | a limit of 0 or less suspends the direction and starts the refill timer, a positive one lets it go on and stops the timer if the other direction does not need it |
| RateLimit.Bev.DecrementLimit | libevent/libevent-2.0.22-stable/bufferevent_ratelim.c:897-925 | the user takes bytes off or puts some back: only crossing 0 suspends, lets go on, starts or stops the timer |
| RateLimit.Bev.RefillCallback | libevent/libevent-2.0.22-stable/bufferevent_ratelim.c:395-441 | after the refill each direction that was suspended is let go exactly if its limit is positive, else the timer is pending again; no wake-up is lost if and only if no refill of a direction that was not suspended wraps around |
| RateLimit.Bev.InitBucket | libevent/libevent-2.0.22-stable/bufferevent_ratelim.c:48-70 | a new bucket starts with one tick's rate, a bucket in use is clipped to the maximum |
| RateLimit.Bev.SetRateLimit | libevent/libevent-2.0.22-stable/bufferevent_ratelim.c:558-635 | a new configuration clips or starts the buckets, suspends exactly the directions whose limit is not positive and has the timer pending exactly if there is one; the configuration object that is set already changes nothing |
| RateLimit.Rises | libevent/libevent-2.0.22-stable/bufferevent_ratelim.c:72-110 | a refill never lowers a limit within its maximum |
| RateLimit.Group.constructor | libevent/libevent-2.0.22-stable/bufferevent_ratelim.c:637-666 | a new group has one tick's rate and no member |
| RateLimit.Group.SuspendAll | libevent/libevent-2.0.22-stable/bufferevent_ratelim.c:351-373 | every member whose lock can be had is suspended |
| RateLimit.Group.UnsuspendAll | libevent/libevent-2.0.22-stable/bufferevent_ratelim.c:486-503 | every member whose lock can be had is let go; pending_unsuspend is set exactly if one could not be locked |
| RateLimit.Group.Share | libevent/libevent-2.0.22-stable/bufferevent_ratelim.c:226-252 | a suspended group suspends the asking member; otherwise its share is the limit divided among the members, but at least the minimum: at the minimum or above, at the minimum or with all shares within the limit, and one more each would not be |
| RateLimit.Group.Decrement | libevent/libevent-2.0.22-stable/bufferevent_ratelim.c:294-307 | the group is suspended exactly when its bucket is not positive, with what that means for each member |
| RateLimit.Group.DecrementLimit | libevent/libevent-2.0.22-stable/bufferevent_ratelim.c:955-974 | the user takes bytes off the group or puts some back: only crossing 0 suspends or lets go its members |
| RateLimit.Group.RefillCallback | libevent/libevent-2.0.22-stable/bufferevent_ratelim.c:527-556 | when the bucket allows it, or an earlier attempt is pending, every member whose lock can be had is let go; otherwise only the limit changes |
| RateLimit.Group.GetRlimMax | libevent/libevent-2.0.22-stable/bufferevent_ratelim.c:199-260 | never negative, never above the own limit, nothing while the group is suspended; otherwise at most the least share, or all such grants fit the limit of the group; and no less than the own limit, the least share, or what the limit divides into; the invariant holds afterwards if and only if the member's refill does not wrap around |
| RateLimit.Group.DecrementBuckets | libevent/libevent-2.0.22-stable/bufferevent_ratelim.c:274-310 | both buckets lose the bytes, and an emptied group bucket suspends the member |
| RateLimit.Group.MemberRefill | libevent/libevent-2.0.22-stable/bufferevent_ratelim.c:395-441 | a member's own refill keeps the group's invariant if and only if it does not wrap around |
| RateLimit.Group.AddBegin | libevent/libevent-2.0.22-stable/bufferevent_ratelim.c:731-766 | the member is in the group, its own suspension still to come |
| RateLimit.Group.AddEnd | libevent/libevent-2.0.22-stable/bufferevent_ratelim.c:767-776 | the member is suspended as the group was when it was added |
| RateLimit.Group.Remove | libevent/libevent-2.0.22-stable/bufferevent_ratelim.c:784-806 | the member is out of the group, and no longer suspended by it if asked for |
| RateLimit.UnsuspendMembers | libevent/libevent-2.0.22-stable/bufferevent_ratelim.c:472-483 | the walk in two stretches lets go exactly the members whose lock can be had and reports if there is another |
| RateLimitRuns.Perform | libevent/libevent-2.0.22-stable/bufferevent_ratelim.c:199-1005 | one step of the program, the loop or another thread: the group's limits, last tick and members are what the step makes of them, and no wake-up is lost if and only if no refill wraps around; without refunds none does |
| RateLimitRuns.Run | libevent/libevent-2.0.22-stable/bufferevent_ratelim.c:199-1005 | any interleaving of steps, up to the first that cannot be taken or whose refill would wrap around: no wake-up is lost, and the group's limits and members are those of the steps folded one by one; without refunds no refill wraps around |
| RateLimitRuns.Wake | libevent/libevent-2.0.22-stable/bufferevent_ratelim.c:527-556 | after any run, one tick that fills the group's bucket of a direction to the least share leaves no member suspended by the group in that direction, if all locks are free |
| RateLimitRuns.WakeOwn | libevent/libevent-2.0.22-stable/bufferevent_ratelim.c:395-441 | the refill timer of a bufferevent whose own bucket is positive again ends its suspension, and the direction is active if it is enabled and nothing else suspends it |
| RateLimitRuns.Round | libevent/libevent-2.0.22-stable/bufferevent_ratelim.c:199-260 | when every member asks once, together they are granted at most the limit of the group and a least share for each, and nothing while it is suspended |
| RateLimitRuns.RefundIsKept | libevent/libevent-2.0.22-stable/bufferevent_ratelim.c:72-110 | a full bucket of 10 that gets a byte back has 12 a tick later |
| RateLimitRuns.RefundStalls | libevent/libevent-2.0.22-stable/bufferevent_ratelim.c:199-225 | a full bucket of 2^62 that gets a byte back: two ticks later the limit is negative, and the direction neither suspended nor waiting for a refill |
| Scheduler.Base.constructor | libevent/libevent-2.0.22-stable/event.c:1006-1037 | a new base satisfies the invariant |
| Scheduler.Base.InitCommonTimeout | libevent/libevent-2.0.22-stable/event.c:1181-1253 | a new queue is empty, with an internal timer at priority 0 |
| Scheduler.Base.RemoveActive | libevent/libevent-2.0.22-stable/event.c:2535-2540 | the event leaves its priority's queue; event_count and event_count_active equal the memberships they stand for |
| Scheduler.Base.InsertActive | libevent/libevent-2.0.22-stable/event.c:2607-2613 | the event goes to the end of its priority's queue; the counts follow |
| Scheduler.Base.FindPlace | libevent/libevent-2.0.22-stable/event.c:2560-2588 | the search from the end finds a place that keeps the queue sorted by deadline |
| Scheduler.Base.InsertTimeout | libevent/libevent-2.0.22-stable/event.c:2614-2625 | into the heap or in order into its common timeout queue |
| Scheduler.Base.Del | libevent/libevent-2.0.22-stable/event.c:2214-2286 | the event is in no queue; every other event is untouched, and every queue is still served by its timer |
| Scheduler.Base.Activate | libevent/libevent-2.0.22-stable/event.c:2306-2345 | an event that is not active goes to the end of its priority's queue; a more urgent one stops the running queue |
| Scheduler.Base.Schedule | libevent/libevent-2.0.22-stable/event.c:1144-1151 | the queue's timer is in the heap with the deadline of the queue's head |
| Scheduler.Base.Add | libevent/libevent-2.0.22-stable/event.c:2044-2192 | the event is added with its deadline, relative or absolute, and a persistent one keeps its interval; queues stay sorted and served; no other event changes but the timer of its common timeout |
| Scheduler.Base.TimeoutProcess | libevent/libevent-2.0.22-stable/event.c:2493-2517 | exactly the heap events that are due become active, in order of their deadlines, behind all that was active; nothing else changes |
| Scheduler.Base.CommonTimeoutCallback | libevent/libevent-2.0.22-stable/event.c:1156-1177 | exactly the events that are due leave the queue and become active, in order of their deadlines, behind all that was active; no other event changes but the timer, which is set for the rest |
| Scheduler.RunsOut | libevent/libevent-2.0.22-stable/event.c:2044-2517 | from event_add to timeout_process: a timeout runs out exactly if its time has come, and until then the event waits with that deadline |
| Scheduler.RunsOutListed | libevent/libevent-2.0.22-stable/event.c:2044-2517 | the same in a common timeout: once the time has come the timer of its queue is active |
| Scheduler.Base.TimeoutNext | libevent/libevent-2.0.22-stable/event.c:2397-2432 | the wait is forever if and only if no event has a timeout; otherwise it ends exactly when the first event of the heap or of any common timeout queue is due, at once if one is due already |
| Scheduler.Base.TimeoutCorrect | libevent/libevent-2.0.22-stable/event.c:2440-2490 | when the clock went back every deadline moves by the same amount, each exactly once; otherwise nothing changes |
| Scheduler.MovedOk | libevent/libevent-2.0.22-stable/event.c:2440-2490 | moving all deadlines alike keeps every queue in order and served |
| Scheduler.ListsWait | libevent/libevent-2.0.22-stable/event.c:2397-2432 | no event is due before the first deadline in the heap |
| Scheduler.SetServed | libevent/libevent-2.0.22-stable/event.c:2148-2175 | after an event got a new timeout every queue is served that the event does not head |
| Scheduler.LostOneServed | libevent/libevent-2.0.22-stable/event.c:2214-2286 | taking an event out leaves every queue served |
| EventState.ListsInserted | libevent/libevent-2.0.22-stable/event.c:2560-2588 | an event at its place keeps all queues sorted |
| EventState.NoEvents | libevent/libevent-2.0.22-stable/event.c:1041-1045 | the count of events, which says whether the loop has anything to wait for, is 0 exactly if no event of the user is added, active or timed, and the count of active ones exactly if none is active |
| Dispatch.NextRun | libevent/libevent-2.0.22-stable/event.c:1256-1320 | a persistent event runs again one interval after it was due, never in the past |
| Dispatch.PersistClosure | libevent/libevent-2.0.22-stable/event.c:1256-1320 | the persistent event is scheduled for its next run, if it has an interval, and no other event changes but the timer of its common timeout |
| Dispatch.HeadIsFirst | libevent/libevent-2.0.22-stable/event.c:1427-1445 | the head of the first queue that is not empty comes first by priority and order of activation |
| Dispatch.Perform | libevent/libevent-2.0.22-stable/event.c:1338-1379 | a call that a callback makes has its effect on the events: added, deleted, activated, or the loop told to go on |
| Dispatch.TakeOut | libevent/libevent-2.0.22-stable/event.c:1338-1365 | only the event that is first in line is taken out: it alone changes, and the history grows by it with the events as they were |
| Dispatch.Play | libevent/libevent-2.0.22-stable/event.c:1338-1379 | the calls of a callback lead from one state of the events to the next, each with its effect |
| Dispatch.RunTimer | libevent/libevent-2.0.22-stable/event.c:1156-1177 | a queue's timer fires exactly what is due in its queue |
| Dispatch.RunUser | libevent/libevent-2.0.22-stable/event.c:1256-1320 | a persistent event is scheduled again before the calls of its callback |
| Dispatch.RunOne | libevent/libevent-2.0.22-stable/event.c:1338-1379 | the event that is first in line is taken out, scheduled again if it is persistent, and its callback makes exactly the calls of its script, or fires what is due in its queue: the events afterwards are those that this leads to |
| Dispatch.ProcessQueue | libevent/libevent-2.0.22-stable/event.c:1329-1388 | the history grows by exactly the callbacks that ran, one for each script used, each of this priority and first in line among the events it saw, and each leading to the events that the next one saw; the count is that of the user's events among them; it ends with the queue empty, something more urgent active, or the loop stopped |
| Dispatch.ProcessActive | libevent/libevent-2.0.22-stable/event.c:1427-1453 | the history grows by exactly the callbacks that ran, each leading to the events that the next one saw, and each was the active event that comes first at that moment: no more urgent one is active, and within a priority they start in order of activation; afterwards nothing as urgent is active unless asked to go on |
| Dispatch.MakeReady | libevent/libevent-2.0.22-stable/event.c:1620-1631 | what the backend reports and what is due is active, and no other event changes; what is new queues behind what was active, first the reported, then the due by deadline |
| Dispatch.LoopOnce | libevent/libevent-2.0.22-stable/event.c:1554-1656 | one turn of the loop: deadlines are those before the turn, moved all alike if the clock went back; with nothing active the wait ends exactly at the first of them, and is forever if and only if there is none; what is reported or due is active when the first callback starts, behind what was active before; the callbacks that ran, exactly those in the history, each were first in line, and each led to the events that the next one saw, the last to those afterwards |
| Dispatch.RunsOnce | libevent/libevent-2.0.22-stable/event.c:1338-1379 | an event that is not persistent is not added, not active and has no timeout once its callback has run, unless a call adds it |
| Dispatch.RunsAgain | libevent/libevent-2.0.22-stable/event.c:1256-1320 | a persistent event stays added; its next deadline is one interval after the last one if that made it run and is still to come, and one interval from now otherwise |
| MinHeap.UpStep | libevent/libevent-2.0.22-stable/minheap-internal.h:133-143 | moving the parent into the hole keeps heap order and indices, and the event may go higher |
| MinHeap.DownStep | libevent/libevent-2.0.22-stable/minheap-internal.h:145-158 | moving the earlier child into the hole keeps heap order and indices |
| MinHeap.TopIsLeast | libevent/libevent-2.0.22-stable/minheap-internal.h:69 | heap order makes the first event the earliest |
| MinHeap.OrderShifted | libevent/libevent-2.0.22-stable/event.c:2466-2475 | a clock correction keeps the heap order |
| MinHeap.Heap.ShiftUp | libevent/libevent-2.0.22-stable/minheap-internal.h:133-143 | the event finds a place upwards; the heap is in order, and every event knows its place |
| MinHeap.Heap.ShiftDown | libevent/libevent-2.0.22-stable/minheap-internal.h:145-158 | the same downwards |
| MinHeap.Heap.Top | libevent/libevent-2.0.22-stable/minheap-internal.h:69 | an event of the heap with the least deadline, none exactly for an empty heap |
| MinHeap.Heap.Push | libevent/libevent-2.0.22-stable/minheap-internal.h:71-77 | the heap holds exactly one event more |
| MinHeap.Heap.Pop | libevent/libevent-2.0.22-stable/minheap-internal.h:79-89 | takes out an event with the least deadline |
| MinHeap.Heap.Erase | libevent/libevent-2.0.22-stable/minheap-internal.h:96-115 | takes out exactly this event, wherever it is; an event that is not in the heap is refused |
| MinHeap.Heap.Reserve | libevent/libevent-2.0.22-stable/minheap-internal.h:117-131 | room for more events, those in the heap unchanged |
| MinHeap.PopAll | libevent/libevent-2.0.22-stable/minheap-internal.h:79-89 | popping everything gives the events in order of their deadlines, each once |
| Tagging.IntRoundTrip | libevent/libevent-2.0.22-stable/event_tagging.c:306-341 | an integer decodes to itself, whatever follows, for 32 and 64 bits |
| Tagging.NibbleCount | libevent/libevent-2.0.22-stable/event_tagging.c:115-136 | a number below 16^k has at most k nibbles |
| Tagging.PackedNibbles | libevent/libevent-2.0.22-stable/event_tagging.c:115-136 | the bytes hold the nibbles, least significant first, and the count of them in the top half of the first byte |
| Tagging.EncodeInt | libevent/libevent-2.0.22-stable/event_tagging.c:115-136 | k nibbles take floor(k/2)+1 bytes |
| Tagging.IntSamples | libevent/libevent-2.0.22-stable/event_tagging.c:115-136 | 0, 1 and 0x123 on the wire are 00, 01 and 23 21 |
| Tagging.EncodeIntInternal | libevent/libevent-2.0.22-stable/event_tagging.c:115-136 | the in-place loop writes exactly the encoding of the number |
| Tagging.DecodeIntInternal | libevent/libevent-2.0.22-stable/event_tagging.c:306-341 | the loop computes exactly the decoding, or refuses a number that is too long or cut off |
| Tagging.TagRoundTrip | libevent/libevent-2.0.22-stable/event_tagging.c:171-233 | a tag decodes to itself and uses up exactly its bytes |
| Tagging.TagFits | libevent/libevent-2.0.22-stable/event_tagging.c:171-192 | a 32-bit tag takes at most five bytes |
| Tagging.TagGroups | libevent/libevent-2.0.22-stable/event_tagging.c:171-192 | byte k of an encoded tag holds its seven bits from 7 * k on, and every byte but the last is marked |
| Tagging.EncodeTagBytes | libevent/libevent-2.0.22-stable/event_tagging.c:171-192 | the loop writes the 7-bit groups, the low one first |
| Tagging.DecodeTagBytes | libevent/libevent-2.0.22-stable/event_tagging.c:194-233 | the loop computes exactly the decoding of a tag |
| Tagging.HeaderRoundTrip | libevent/libevent-2.0.22-stable/event_tagging.c:428-442 | the header of a record gives its tag, its own length and the length of the payload |
| Tagging.RecordRoundTrip | libevent/libevent-2.0.22-stable/event_tagging.c:247-254 | a record is unmarshalled to itself and exactly its bytes are used up |
| Tagging.RecordSamples | libevent/libevent-2.0.22-stable/event_tagging.c:247-254 | records with one byte of payload on the wire: tag, length, payload |
| Tagging.PeekLength | libevent/libevent-2.0.22-stable/event_tagging.c:392-408 | peek_length is the size of the whole record |
| Tagging.StreamRoundTrip | libevent/libevent-2.0.22-stable/event_tagging.c:247-471 | decoding the encoding of any list of records returns the list and uses up exactly its bytes |
| TagBuffers.EncodeIntTo | libevent/libevent-2.0.22-stable/event_tagging.c:150-164 | on a chained buffer: content grows by exactly the encoding |
| TagBuffers.EncodeTagTo | libevent/libevent-2.0.22-stable/event_tagging.c:171-192 | on a chained buffer: content grows by exactly the encoded tag |
| TagBuffers.Marshal | libevent/libevent-2.0.22-stable/event_tagging.c:247-254 | on a chained buffer: content grows by exactly the record |
| TagBuffers.MarshalInt | libevent/libevent-2.0.22-stable/event_tagging.c:267-288 | on a chained buffer: content grows by exactly the record of the number |
| TagBuffers.DecodeTagFrom | libevent/libevent-2.0.22-stable/event_tagging.c:194-233 | on a chained buffer: the tag at its front, taken off or left |
| TagBuffers.WhenOutOfReach | libevent/libevent-2.0.22-stable/event_tagging.c:206-221 | the loop goes on behind the five bytes that are contiguous if and only if there are more and all five have the high bit set |
| TagBuffers.OutOfReachAt | libevent/libevent-2.0.22-stable/event_tagging.c:206-221 | five bytes of 128 and one more: the loop reads the sixth |
| TagBuffers.PeekLengthFrom | libevent/libevent-2.0.22-stable/event_tagging.c:392-408 | the size of the next record; content is unchanged |
| TagBuffers.DecodeIntFrom | libevent/libevent-2.0.22-stable/event_tagging.c:352-364 | the number at an offset; content is unchanged |
| TagBuffers.TakeInt | libevent/libevent-2.0.22-stable/event_tagging.c:366-384 | the number at the front, taken off |
| TagBuffers.UnmarshalHeader | libevent/libevent-2.0.22-stable/event_tagging.c:428-442 | the payload then starts the buffer; refused exactly if the record is not complete or its length is not an int |
| TagBuffers.TakePayload | libevent/libevent-2.0.22-stable/event_tagging.c:457-471 | exactly the next record is taken off, its tag and payload handed out |
| TagBuffers.Consume | libevent/libevent-2.0.22-stable/event_tagging.c:444-453 | exactly the next record is skipped |
| Rpc.FieldWithTag | libevent/libevent-2.0.22-stable/event_rpcgen.py:248-254 | the case of the switch is the first entry with the tag, if there is one |
| RpcRoundTrip.MarshalIsConcat | libevent/libevent-2.0.22-stable/event_rpcgen.py:221-240 | marshalling writes the records of the message in entry order |
| RpcRoundTrip.FoldSlots | libevent/libevent-2.0.22-stable/event_rpcgen.py:241-275 | each slot depends only on the records of its own entry |
| RpcRoundTrip.ValueReadBack | libevent/libevent-2.0.22-stable/event_rpcgen.py:598-648 | the record of one value of any kind, nested structs included, is read back, whatever follows |
| RpcRoundTrip.FieldFound | libevent/libevent-2.0.22-stable/event_rpcgen.py:53-61 | with distinct tags each record leads to its own entry |
| RpcRoundTrip.LoopOfRecords | libevent/libevent-2.0.22-stable/event_rpcgen.py:241-275 | the unmarshal loop reads records one by one into the slots |
| RpcRoundTrip.CompleteMsg | libevent/libevent-2.0.22-stable/event_rpcgen.py:286-304 | a message that can be sent is complete, in all nested structs; what is refused for being incomplete say RpcAccepts.NothingMissing and RpcAccepts.Accepted |
| RpcRoundTrip.Reorder | libevent/libevent-2.0.22-stable/event_rpcgen.py:241-304 | reordering the top-level records while keeping the order within each array decodes to the same message |
| RpcRoundTrip.RoundTrip | libevent/libevent-2.0.22-stable/event_rpcgen.py:221-304 | for every schema that the generator accepts and every complete message, unmarshal of marshal is the same message |
| RpcAccepts.CompleteInside | libevent/libevent-2.0.22-stable/event_rpcgen.py:286-304 | if the complete function accepts a message, every entry that is neither optional nor an array is set, in it and in every message inside it, at any depth |
| RpcAccepts.NothingMissing | libevent/libevent-2.0.22-stable/event_rpcgen.py:241-304 | for all bytes: what is unmarshalled has all its required entries, at any depth |
| RpcAccepts.Accepted | libevent/libevent-2.0.22-stable/event_rpcgen.py:241-304 | records that can be read, in any order, make a message if and only if there is exactly one for each required entry and at most one for each optional one; each slot then holds the values of its records, in order |
| RpcAccepts.UnknownTag | libevent/libevent-2.0.22-stable/event_rpcgen.py:270-273 | a record whose tag no entry has is refused, whatever was read before and comes after |
| RpcAccepts.WrongLength | libevent/libevent-2.0.22-stable/event_rpcgen.py:559-566 | bytes of a fixed number are taken exactly if the record holds as many |
| RpcAccepts.NumberInRecord | libevent/libevent-2.0.22-stable/event_tagging.c:476-525 | a number is taken exactly if it ends within its record, and whatever else is in the record is skipped |
| RpcArrays.Elements.constructor | libevent/libevent-2.0.22-stable/event_rpcgen.py:1273-1277 | a new array entry is empty |
| RpcArrays.Elements.ExpandToHoldMore | libevent/libevent-2.0.22-stable/event_rpcgen.py:1138-1152 | the allocation doubles and keeps the elements |
| RpcArrays.Elements.Add | libevent/libevent-2.0.22-stable/event_rpcgen.py:1154-1176 | one element more; the length never exceeds the allocation, which is at most twice the length |
| RpcArrays.Elements.Append | libevent/libevent-2.0.22-stable/event_rpcgen.py:1201-1223 | the same for a decoded element |
| RpcArrays.Elements.Assign | libevent/libevent-2.0.22-stable/event_rpcgen.py:1111-1131 | an element is replaced exactly if the offset lies in the array |
| RpcArrays.Elements.Get | libevent/libevent-2.0.22-stable/event_rpcgen.py:1098-1109 | an element exactly if the offset lies in the array |
| RpcArrays.Fill | libevent/libevent-2.0.22-stable/event_rpcgen.py:1133-1223 | elements added or decoded one by one are in the array in that order |
| Arc4.SwapKeeps | libevent/libevent-2.0.22-stable/arc4random.c:424-436 | swapping two places keeps the array a permutation of all bytes |
| Arc4.StepReversible | libevent/libevent-2.0.22-stable/arc4random.c:424-436 | the state before a step can be computed from the state after it |
| Arc4.NeverMeet | libevent/libevent-2.0.22-stable/arc4random.c:424-436 | two different states never give the same later state |
| Arc4.KeyTrace | libevent/libevent-2.0.22-stable/arc4random.c:106-121 | keying is 256 steps, and step n uses byte n of the data repeated without end |
| Arc4.KeyChunks | libevent/libevent-2.0.22-stable/arc4random.c:464-479 | data in chunks of 256 bytes is as good as one chunk after the other |
| Arc4.FirstBytes | libevent/libevent-2.0.22-stable/arc4random.c:424-436 | from the identity permutation the first output bytes are 2, 5 and 7 |
| Arc4.Stream.constructor | libevent/libevent-2.0.22-stable/arc4random.c:95-104 | the array starts as a permutation |
| Arc4.Stream.GetByte | libevent/libevent-2.0.22-stable/arc4random.c:424-436 | one step and its output byte; the array stays a permutation |
| Arc4.Stream.AddRandom | libevent/libevent-2.0.22-stable/arc4random.c:106-121 | 256 keyed steps, using the first 256 bytes over and over; the array stays a permutation |
| Arc4.Stream.AddAll | libevent/libevent-2.0.22-stable/arc4random.c:464-479 | every byte of the data is used, 256 at a time |
| Arc4.Stream.Stir | libevent/libevent-2.0.22-stable/arc4random.c:379-404 | the first 12*256 output bytes are thrown away |
| Arc4.Stream.GetWord | libevent/libevent-2.0.22-stable/arc4random.c:438-449 | a word is four output bytes, the first one highest |
| Uniform.MinIsRemainder | libevent/libevent-2.0.22-stable/arc4random.c:527-538 | min is 2^32 modulo the bound in both 32-bit branches |
| Uniform.Unbiased | libevent/libevent-2.0.22-stable/arc4random.c:510-520 | every result below the bound is given by the same number of accepted draws |
| Uniform.MoreThanHalf | libevent/libevent-2.0.22-stable/arc4random.c:540-545 | more than half of all draws are accepted |
| Uniform.Arc4RandomUniform | libevent/libevent-2.0.22-stable/arc4random.c:521-554 | the result is the first accepted draw modulo the bound, 0 for bounds below 2 |
| PercentCodec.DecodeFrom | httpService/http_service.c:492-504 | decoding an encoded string goes on behind it undisturbed |
| PercentCodec.DecodeEncode | httpService/http_service.c:464-504 | decoding undoes encoding, for every string (section 2.1 of RFC 3986) |
| PercentCodec.DecodeUnescaped | httpService/http_service.c:492-504 | a string without an escape decodes to itself |
| PercentCodec.EncodeSamples | httpService/http_service.c:464-482 | letters, digits and six other characters, the slash among them, stand for themselves, all others take three bytes, lower-case digits last |
| PercentCodec.DecodeSamples | httpService/http_service.c:484-504 | digits of either case are read, and what is no escape stands for itself |
| PercentCodec.EncodedIsPlain | httpService/http_service.c:464-482 | an encoded string has only unescaped characters and percent signs |
| PercentCodec.AllFits | httpService/http_service.c:468-480 | everything is encoded if and only if four more bytes fit before the last character |
| PercentCodec.DecodeFitting | httpService/http_service.c:464-504 | what strencode writes decodes to a prefix of the string, and to all of it if and only if there was room |
| PercentCodec.Strencode | httpService/http_service.c:464-482 | a NUL-terminated prefix of the encoding inside tosize bytes; nothing is written behind tosize |
| PercentCodec.Strdecode | httpService/http_service.c:492-504 | the decoded string and its terminator, the same in place as out of place; nothing behind the terminator changes |
| PercentCodec.DecodeOne | httpService/http_service.c:494-502 | one turn reads one or three characters, never past the end of the string |

## Left out

- EvBuffers.EvBuffer.Add: states nothing for a call that meets the assertion in evbuffer_chain_insert, where the source aborts.
- BufferMoves.RemoveBuffer: stated for buffers without outstanding reservations; when the destination cannot take the rest of a chain because its length would overflow, only the source's side is stated.
- BufferMoves.RemoveSome: buffers without outstanding reservations.
- BufferMoves.MoveChains: buffers without outstanding reservations.
- BufferMoves.SpliceChains: buffers without outstanding reservations.
- BufferRuns.Run: the inputs of a run together stay below 2^64 bytes; reserving, committing and searching are covered call by call, not as steps of a run.
- BufferSearch.Strspn: the position that the source also moves is not part of the result.
- BufferSearch.SetPtr: the source's overflow checks for positions near the largest size are not modelled; buffers hold less than that.
- BufferReserve.ExpandSingleChain: where a new chain is inserted, a size above EVBUFFER_CHAIN_MAX succeeds here; the source refuses it.
- BufferCommit.ReserveSpace: negative sizes, sizes above EVBUFFER_CHAIN_MAX in a new chain, and the callers that ask for exact vectors are not modelled.
- DnsParsing.RequestParse: the memory goes on for 63 bytes behind the packet; DnsNames.WhenOverRead says when one of its names reads there.
- DnsParsing.ReadAnswers: as RequestParse.
- DnsParsing.ReadAuthority: as RequestParse.
- DnsLabels.CodeDecodes: with a table, positions fit the 14 bits of a pointer (buffers of at most 0x4000 bytes; the source uses 1500).
- DnsMessages.ServerRequest.FormatResponse: of a name that cannot be encoded, the labels already written in front of the failing one are not part of what is known to go out.
- Requests.Base.TransmitAll: if a nameserver fails meanwhile, a marked request that was passed may be moved to a free one and stay marked; nothing is stated then.
- DnsEndToEnd.EndToEnd: host names with labels of 1 to 63 bytes; records whose address data is a whole number of addresses, pointer records whose name fits the client's memory, and SOA records whose two names are written out and not compressed, as the server's user hands them over as bytes.
- DnsParsing.ReplyParse: memory as for RequestParse; the pointer for a canonical name is never set, and what reply_handle does afterwards (reissuing, search domains) is a value, not a call.
- Requests.Run: searching further domains is left out, since its new id is chosen before the pump runs; so is reissuing after an error reply.
- Requests.Base.NameserverUp: no probe is under way that it would have to cancel.
- Requests.Base.ClearNameserversAndSuspend: no probe is under way that it would have to cancel.
- EvMap.Run: an fd that was disturbed is not part of the conclusion, though EventBase.Dispatch says when a later call brings it back in step; edge-triggered flags, signals, and kernel errors other than EEXIST, ENOENT and EBADF are left out.
- GetAddrInfo.Play: the hosts file, numeric addresses, canonical names and running out of memory are left out.
- TokenBucket.Throughput: no refunds (a limit above the maximum lets through more), and one direction of one bucket.
- RateLimitRuns.Run: one group; a bufferevent that is freed leaves the run.
- RateLimit.Group.Decrement: a limit never leaves the range of a signed 64-bit number.
- Scheduler.Base.HeapTop: the heap is a set here; MinHeap holds the array.
- Scheduler.Base.Add: the backend does not refuse an event, and waiting for a running callback of another thread is left out.
- Dispatch.LoopOnce: deferred callbacks and signal closures are left out; a callback is a list of calls of the base, and when the lists run out the loop is stopped.
- TagBuffers.DecodeTagFrom: content whose tag the source reads beyond the five bytes it pulled up is excluded (TagInReach, see WhenOutOfReach).
- TagBuffers.TakePayload: evtag_unmarshal and evtag_unmarshal_string refuse a length of -1 only; for other lengths of 2^31 and above they ask for that much memory, which is not modelled.
- TagBuffers.Marshal: the buffer takes the bytes; the source ignores a refusal.
- Tagging.RecordRoundTrip: payloads of 2^31 bytes and more, whose length is not an int.
- RpcRoundTrip.RoundTrip: values whose payload is below 2^31 bytes; strings are C strings; arrays that are set are not empty.
- Rpc.FieldWithTag: tags that do not fit 32 bits, which the generator takes and the wire format cuts.
- RpcArrays.Elements.Add: fewer than 2^29 elements, so that the doubled allocation is an int.
- Uniform.Arc4RandomUniform: a list of draws stands for the generator; the result is missing when all of them are below the minimum.
- Arc4.Stream.Stir: where the entropy comes from, and when the source stirs again.
- Memory allocation always succeeds.
- Pinned, reference, sendfile and mmap chains, callbacks of buffers and their counters (n_add_for_cb, n_del_for_cb).
- Sockets, files, fork, signals, resolv.conf, logging, debug-mode tables, Windows branches and the other backends.
- evrpc.c, http.c, OpenSSL and filtering bufferevents, the example programs.
