# InfoLogger transport and Readout data path: a verified model

A Dafny model of two subsystems and proofs about whole runs of them.

**InfoLogger reliable transport.** The disk-backed permanent FIFO (two circular tables, an append-only
file, an acknowledgement header) is proved to be one unbounded queue that survives crashes. The framed,
cumulatively acknowledged protocol between client and server is proved to deliver at least once and
without gaps over connections that break at any time. The record encoder and decoder are proved
inverse to each other up to the normalisation of values, with splitting into lines and truncation into
a bounded buffer. The cache that spills to a spool directory is proved to be a queue too.

**Readout data path.** The lock-free ring, the aggregator that merges rings while producers keep
pushing, the superpage queue, the pages of the DMA buffer and the page pool are proved to lose,
duplicate and reorder nothing.

## Layout

| files | what they hold |
|---|---|
| `Items`, `PermFifoModel`, `PermFifoRuns` | permanent FIFO on values: operations, refinement of a queue, crashes |
| `CircularTables`, `PermFifo`, `FileClean` | the same in place: tables, FIFO, directory during cleaning |
| `FileIds`, `TransportServer`, `TransportSession` | ids, acknowledgements on reused slots, delivery over a whole session |
| `ByteOrder`, `Restarts` | the two ends of a connection together, and the client process over crashes and restarts |
| `ServerTable`, `ClientQueue` | connection table and transmit queue in place |
| `Decimals`, `Wire`, `Sender`, `Receiver`, `ServerConnection` | printed numbers, byte format, sending loop, receiving state machine, receive buffer |
| `Messages`, `Encoding`, `EncodedRecords`, `Encoder` | records, bounded encoding, its shape, the encoder in place |
| `MessageDecode`, `Decoder`, `Conversion`, `MessageRoundTrip` | decoding, protocol conversion, the round trip |
| `SpoolNames`, `SpillCacheModel`, `SpillCacheRuns`, `SpillCache` | spool file names, the spill cache, its runs, the cache in place |
| `Ring`, `RingFifo`, `Aggregator` | the ring step by step and in place, the aggregator |
| `Superpages`, `SuperpageQueues`, `DmaPages`, `PageFlow`, `MemPools`, `SharedPool` | page ownership, for one caller and for interleaved threads |
| `LineBuffers`, `Options`, `Wrapping` | the two line buffers, and small shared definitions |

Operations that update state are classes whose methods are tied to functions on values; what the
program promises is proved of those functions, for every input and every run. Threads are atomic steps
in any order. Sockets, files and timers are sequences and booleans chosen by the environment: where
reads cut a stream, how much a send takes, when a connection breaks, when a timer has run out.
`dafny verify dfyconfig.toml` checks everything.

## Results that are conditions

Where the code does not meet a property on all inputs, the exact condition is proved, with a lemma at
an input that fails:

- ids of the permanent FIFO from 2^32 on (`PermFifoModel.ReadReturnsHeadIff`, `ReadFailsAtLimit`) and
  message ids from 2^31 on (`FileIds.OrderKeptIff`, `TransportSession.StaleAckRemovesIff`, `ForgottenUnsent`);
- acknowledgements that go backwards (`PermFifoRuns.AckExactIff`, `AckBackwards`) and a crash inside one
  (`PermFifoRuns.TornAckIff`, `TornAckReached`);
- a FIFO file left without header by a stop during its first creation (`FileClean.Directory.Clean`);
- headers longer than the client's buffer (`Sender.FrameSentIff`, `LongSourceCutsHeader`);
- fields that share name and type (`Conversion.KeptIff`, `EqualFieldsLose`);
- spool files deleted with major id -1 or the largest minor id (`SpillCacheModel.DeleteExactIff`,
  `DeleteGoesWrong`), files inserted with a path (`SpillCacheModel.AcceptedIsKeptIff`, `AcceptedAndLost`)
  and major ids of more than eight digits (`SpoolNames.NamesSortIff`, `TooLarge`);
- blocks with id 0 (`Aggregator.ScanMinLeastIff`, `ZeroIdIsSkipped`);
- superpages removed while still being pushed (`Superpages.RemoveOrderlyIff`, `RemovedWhilePushing`);
- DMA pages given back by two threads at once (`PageFlow.PublishConservesIff`, `OverlapLoses`);
- pool pages whose release is misled by another one (`SharedPool.LosesIff`, `ReleaseCanMiss`).

## Model

| member | source | states |
|---|---|---|
| `PermFifoRuns.RunRefines` | InfoLogger/src/permanentFIFO.c:680-1015 | every legal interleaving of write, read, flush and acknowledge returns what one unbounded queue returns: reads give the items in write order, once each, and "nothing" only when every item written has been read |
| `PermFifoRuns.StepRefines` | InfoLogger/src/permanentFIFO.c:680-1015 | one operation, wherever the items live (client table, "to be saved" table, file), is one step of the unbounded queue |
| `PermFifoModel.WriteRefines` | InfoLogger/src/permanentFIFO.c:840-911 | a write keeps the invariant and appends exactly one item, numbered next, to the queue, also when a table is full and is saved on the way |
| `PermFifoModel.ReadRefines` | InfoLogger/src/permanentFIFO.c:680-825 | a read takes the head of the queue from whichever of the three places holds it, and answers "nothing" if and only if the queue is empty |
| `PermFifoModel.CopyRefines` | InfoLogger/src/permanentFIFO.c:740-783 | the scan of the "to be saved" table yields exactly the next unread items, one to return and a table-full to keep, if the table holds the next one; otherwise nothing, and then the file holds it |
| `PermFifoModel.LoadRefines` | InfoLogger/src/permanentFIFO.c:786-808 | loading from the file fills the client table with the next unread items and leaves the queue alone |
| `PermFifoModel.ScanFindsNextIff` | InfoLogger/src/permanentFIFO.c:744-783 | the scan, which keeps its id in 32 bits, finds the waiting item if and only if its id is below 2^32 |
| `PermFifoModel.ReadReturnsHeadIff` | InfoLogger/src/permanentFIFO.c:680-825 | with something unread, a read returns the head of the queue if and only if the client table or the file holds it, or its id is below 2^32 |
| `PermFifoModel.ReadFailsAtLimit` | InfoLogger/src/permanentFIFO.c:744-812 | a consistent state in which item 2^32 waits and every read fails |
| `PermFifoModel.UnreadEmptyIff` | InfoLogger/src/permanentFIFO.c:702-711 | comparing the two counters tells exactly whether something is unread |
| `PermFifoModel.AckRefines` | InfoLogger/src/permanentFIFO.c:918-993 | acknowledging what was read keeps the invariant and changes nothing in the queue, including the truncation of the file |
| `PermFifoModel.AckOnFile` | InfoLogger/src/permanentFIFO.c:933-986 | the table keeps only newer items; the file is emptied if and only if all that was saved is acknowledged, and its header records the acknowledgement whenever something is on disk |
| `PermFifoModel.FlushRefines` | InfoLogger/src/permanentFIFO.c:544-563 | saving the table keeps the invariant and the queue |
| `PermFifoRuns.CrashRecovery` | InfoLogger/src/permanentFIFO.c:399-634 | over every execution with any number of crashes: reopening gives, in order, exactly the items flushed and not acknowledged |
| `PermFifoRuns.ExecutionDurable` | InfoLogger/src/permanentFIFO.c:399-993 | at every point of every execution the file owes the reader exactly what was flushed and not acknowledged |
| `PermFifoRuns.StepKeepsDurable` | InfoLogger/src/permanentFIFO.c:840-993 | each operation keeps that, with acknowledgements that do not go backwards, also while nothing is on disk and on the truncating path |
| `PermFifoRuns.ReopenRecovers` | InfoLogger/src/permanentFIFO.c:573-634 | opening a cleaned file gives a sound FIFO whose queue is the pending items of the file |
| `PermFifoRuns.CleanedKeepsPending` | InfoLogger/src/permanentFIFO.c:434-530 | the cleaned file holds the same unacknowledged payloads in the same order |
| `PermFifoRuns.AckExactIff` | InfoLogger/src/permanentFIFO.c:952-986 | the file owes "what was owed minus what is acknowledged" if and only if no record lies between the new acknowledgement and the one on disk |
| `PermFifoRuns.AckBackwards` | InfoLogger/src/permanentFIFO.c:952-986 | five records with three acknowledged: acknowledging the second again makes the file owe the third once more |
| `PermFifoRuns.TornAckIff` | InfoLogger/src/permanentFIFO.c:957-985 | after a crash between truncation and header write the reopened FIFO answers "nothing", as it should, if and only if the header on disk records an acknowledgement or no id; otherwise reading fails |
| `PermFifoRuns.StuckUntilSaved` | InfoLogger/src/permanentFIFO.c:680-825 | in that case whatever is written next cannot be read until it has been saved, and then is |
| `PermFifoRuns.TornAckReached` | InfoLogger/src/permanentFIFO.c:957-985 | the case is reached by opening, reading and acknowledging one record |
| `FileClean.StoppedOwesTheSame` | InfoLogger/src/permanentFIFO.c:414-532 | every disk state a cleaning can be stopped in owes the same items in the same order |
| `FileClean.CleaningsOweTheSame` | InfoLogger/src/permanentFIFO.c:414-532 | so does the state after any number of cleanings, each stopped anywhere |
| `FileClean.Directory.Clean` | InfoLogger/src/permanentFIFO.c:399-539 | ends with the cleaned file alone, and every snapshot between two system calls recovers to the same contents; code 5 if and only if the file has no header |
| `FileClean.Directory.CopyRecords` | InfoLogger/src/permanentFIFO.c:464-520 | writes exactly the unacknowledged records with new ids, touching only the new file |
| `CircularTables.CircularTable.Write` | InfoLogger/src/permanentFIFO.c:235-251 | appends, refused exactly when the table is full |
| `CircularTables.CircularTable.Read` | InfoLogger/src/permanentFIFO.c:256-276 | takes the oldest item, refused exactly when empty |
| `CircularTables.CircularTable.Save` | InfoLogger/src/permanentFIFO.c:281-306 | moves the whole table behind the records of the file, in order |
| `CircularTables.CircularTable.Load` | InfoLogger/src/permanentFIFO.c:312-380 | adds exactly the records above the given id from an offset on, until full or at end of file |
| `CircularTables.CircularTable.DropUpTo` | InfoLogger/src/permanentFIFO.c:933-947 | removes items from the front up to the first above the id |
| `PermFifo.PermFifo.constructor` | InfoLogger/src/permanentFIFO.c:573-634 | the queue of a FIFO opened on a clean file is the records of that file |
| `PermFifo.PermFifo.Flush` | InfoLogger/src/permanentFIFO.c:1001-1015 | empties the table to disk and leaves the queue |
| `PermFifo.PermFifo.Write` | InfoLogger/src/permanentFIFO.c:840-911 | -1 exactly for missing data or negative size, nothing changed; otherwise all the data is appended to the queue under the next id: `size` bytes, or with size 0 everything up to and including the first NUL |
| `PermFifo.BytesAreStored` | InfoLogger/src/permanentFIFO.c:853-860 | what is stored is a prefix of the data; it has `size` bytes, or ends in its only NUL |
| `PermFifo.PermFifo.CopyLoop` | InfoLogger/src/permanentFIFO.c:744-784 | the loop copies the longest run of consecutive ids that the client table takes |
| `PermFifo.PermFifo.Read` | InfoLogger/src/permanentFIFO.c:680-825 | code 1 if and only if the queue is empty; otherwise code 0 and its head, removed |
| `PermFifo.PermFifo.Ack` | InfoLogger/src/permanentFIFO.c:918-993 | the queue is unchanged; with acknowledgements in order the file owes exactly what is above the id |
| `FileIds.NewerIsStrictOrder` | InfoLogger/src/transport_files.c:23-29 | the comparison is a strict total order |
| `FileIds.OrderKeptIff` | InfoLogger/src/transport_client.c:705-722 | message ids are ordered as the items were written if and only if item ids stay below 2^31, since they are kept in an int |
| `TransportSession.Delivery` | InfoLogger/src/transport_client.c:595-770 | over every run, with any disconnections, other clients and slot reuse: what the permanent FIFO was told to forget was taken by the server application, and the items taken are always a prefix of the items written |
| `TransportSession.StepKeeps` | InfoLogger/src/transport_client.c:595-895 | every step of client or server keeps the invariant of the session |
| `TransportSession.AckNamesTaken` | InfoLogger/src/transport_server.c:1083-1114 | an acknowledgement on the client's connection names an item sent on it, and all items of that connection up to it were taken |
| `TransportSession.TakenIsPrefix` | InfoLogger/src/transport_client.c:887-895 | whatever was taken, everything written before it was taken, although files are sent again on reconnection |
| `TransportSession.RemovedExactly` | InfoLogger/src/transport_client.c:650-685 | with the acknowledgement of an item read, the removal loop removes exactly the queue entries up to that item |
| `TransportSession.RemovedStops` | InfoLogger/src/transport_client.c:650-685 | for any queue: the loop removes acknowledged files that are not in transfer and stops at the first other one |
| `TransportSession.PickIff` | InfoLogger/src/transport_client.c:693-755 | a file is picked if and only if the queue has an entry at the index, or has room and the permanent FIFO an item; which one, and what happens to queue and index |
| `TransportSession.PickedIsNext` | InfoLogger/src/transport_client.c:693-755 | in a session the file picked is the one behind those sent on the connection |
| `TransportSession.ExecutionCapacity` | InfoLogger/src/transport_client.c:693-740 | over every run the transmit queue holds no more than its capacity |
| `TransportSession.ItemGoesThrough` | InfoLogger/src/transport_client.c:650-770 | from any quiet state with an item waiting there are steps, each possible, in which the client sends it, the server completes, hands over and acknowledges it, and reading that line makes the FIFO forget everything up to it |
| `TransportSession.ReturnsAfterBreak` | InfoLogger/src/transport_client.c:595-605 | after a break the client can connect again, and first picks the oldest item not acknowledged |
| `TransportSession.StaleAckRemovesIff` | InfoLogger/src/transport_client.c:650-685 | the acknowledgement of an earlier item removes a later item from the queue if and only if the id of that item does not fit an int |
| `TransportSession.ForgottenUnsent` | InfoLogger/src/transport_client.c:650-685 | a client with item 2^31 in its queue tells the permanent FIFO to forget it on account of item 2^31 - 1 |
| `ByteOrder.CompletionOrder` | InfoLogger/src/transport_server.c:177-435 | whatever the partial sends and reads on a connection, the n-th file the server completes carries the id of the n-th file whose END the client handed to the socket, as the session takes for granted |
| `ByteOrder.SentIff` | InfoLogger/src/transport_client.c:757-768 | an id counts as sent if and only if the whole frame of its file, END included, was handed to the socket |
| `ByteOrder.CompletedWasSent` | InfoLogger/src/transport_server.c:346-397 | a file completed by the server equals the one picked at that place, and all of its frame had been sent, also when the connection was closed afterwards |
| `Restarts.NothingFlushedIsLost` | InfoLogger/src/transport_client.c:650-745 | over any number of crashes and restarts of the client, with items renumbered by each: every item flushed was taken by the server application or is owed by the file, and a restart goes on with exactly the payloads owed, in order |
| `Restarts.FlushThenRestart` | InfoLogger/src/permanentFIFO.c:573-634 | after a flush, reopening gives back the payloads still owed followed by those that waited to be saved, in order, and the new session starts with them |
| `Restarts.ItemIsForgotten` | InfoLogger/src/transport_client.c:650-770 | in a quiet process with an item waiting there are acts, each allowed, after which the item was taken by the server application and the file owes only what is newer |
| `Restarts.ActKeeps` | InfoLogger/src/transport_client.c:650-745 | every act of the process keeps FIFO and session in agreement about what was written, read and acknowledged |
| `Restarts.WriteEnabled` | InfoLogger/src/permanentFIFO.c:840-911 | in every state FIFO and session agree on, the process may write as long as the next id fits an int |
| `Restarts.TakenOrOwed` | InfoLogger/src/permanentFIFO.c:918-993 | an item on disk was taken, or is among those that reopening gives back |
| `ClientQueue.Transmitter.RemoveAcknowledged` | InfoLogger/src/transport_client.c:650-690 | the loop pops and acknowledges exactly the entries up to the acknowledged id, and corrects the index |
| `ClientQueue.Transmitter.ProcessReplies` | InfoLogger/src/transport_client.c:609-690 | the last acknowledgement line read counts, then the queue is cleared up to it |
| `ClientQueue.Transmitter.Pick` | InfoLogger/src/transport_client.c:693-755 | the next file is the queue entry at the index, else one more item of the permanent FIFO if the queue has room |
| `ClientQueue.Transmitter.Start` | InfoLogger/src/transport_client.c:595-605 | a new connection starts again from the head of the queue |
| `TransportServer.AcksAreSafe` | InfoLogger/src/transport_server.c:446-473 | over every interleaving of the two threads with slots closed and reused: acknowledgements on a connection strictly increase and each names a file received on that same connection and taken by the application |
| `TransportServer.StepKeeps` | InfoLogger/src/transport_server.c:145-473 | every critical section keeps the invariant of slots, queue and acknowledgements |
| `TransportServer.AckFileKeeps` | InfoLogger/src/transport_server.c:1083-1114 | acknowledging a file keeps the invariant, and that of a closed or reassigned slot disturbs nobody |
| `TransportServer.AckFileMarksIff` | InfoLogger/src/transport_server.c:1096-1104 | a file is marked if and only if its connection is still open in its slot and nothing newer is marked; the mark is then its id, one more is waiting, and no other slot or line changes |
| `TransportServer.SendAckWritesIff` | InfoLogger/src/transport_server.c:446-473 | a line is written if and only if the connection is open, more files wait than the minimum and the socket takes it; it carries the mark, and nothing then waits |
| `TransportServer.MarkIsNewest` | InfoLogger/src/transport_server.c:1096-1104 | over every run the mark of an open connection is the newest file of it that was acknowledged by the application while it was open |
| `TransportServer.LastLineIsNewest` | InfoLogger/src/transport_server.c:446-473 | over every run, once nothing waits on an open connection its last line names that file |
| `TransportServer.CompleteAndTake` | InfoLogger/src/transport_server.c:346-397 | a completed file goes to the end of the output queue, and is taken when it is at its head |
| `TransportServer.CloseFrees` | InfoLogger/src/transport_server.c:145-169 | a closed slot can be accepted again and completes nothing; everything else is as it was |
| `TransportServer.AcceptOpens` | InfoLogger/src/transport_server.c:623-652 | a new connection has a number that no slot has, nothing received, marked or written; other slots are as they were |
| `TransportServer.SendAckKeeps` | InfoLogger/src/transport_server.c:446-473 | an acknowledgement line is newer than the one before it on its connection |
| `ServerTable.Table.Accept` | InfoLogger/src/transport_server.c:623-652 | takes the first free slot; -1 if and only if none is free; is one step of the server |
| `ServerTable.Table.Complete` | InfoLogger/src/transport_server.c:346-397 | the completed file joins the output queue under its slot and connection number |
| `ServerTable.Table.Close` | InfoLogger/src/transport_server.c:145-169 | frees the slot and keeps its acknowledgement state consistent |
| `ServerTable.Table.MarkFile` | InfoLogger/src/transport_server.c:1083-1107 | moves the mark of the slot exactly for the same connection and a newer id, as `TransportServer.AckFileMarksIff` states |
| `ServerTable.Table.AckFile` | InfoLogger/src/transport_server.c:1083-1114 | marks the file, then acknowledges if more than 20 are waiting: two steps of the server |
| `ServerTable.Table.Acknowledge` | InfoLogger/src/transport_server.c:446-473 | writes the mark if more than the minimum is unacknowledged and the socket takes it |
| `ServerTable.Table.AcknowledgeAll` | InfoLogger/src/transport_server.c:660-672 | the loop over all connections is the sequence of those steps |
| `ServerTable.NothingLeft` | InfoLogger/src/transport_server.c:660-672 | afterwards no open connection whose socket took the line has anything left to acknowledge |
| `ServerTable.LastLineIsMark` | InfoLogger/src/transport_server.c:660-672 | the last line on each such connection is then its mark |
| `Wire.HeaderRoundTrip` | InfoLogger/src/transport_client.c:805-815 | the server scans back exactly the source, ids and size the client printed |
| `Sender.FrameSentIff` | InfoLogger/src/transport_client.c:800-870 | the bytes sent for a file are header, payload and END if and only if the header fits the client's buffer |
| `Sender.LongSourceCutsHeader` | InfoLogger/src/transport_client.c:805-815 | a source name of 2500 characters loses the line end of its header |
| `Sender.ConnectedLoop` | InfoLogger/src/transport_client.c:683-878 | for any files offered and any partial sends, the bytes taken by the socket are a prefix of the frames of the files picked, in order, and all of them when the loop is idle; the files picked are exactly those offered to an idle loop |
| `Sender.PicksIff` | InfoLogger/src/transport_client.c:693-755 | a file offered is picked if and only if the loop is idle, and is then in transfer |
| `Sender.TurnFalls` | InfoLogger/src/transport_client.c:683-878 | every turn in which the socket takes something lessens the work left, until the loop is idle |
| `Sender.NoWorkIsIdle` | InfoLogger/src/transport_client.c:683-878 | no work is left exactly when the loop is idle |
| `Sender.BecomesIdle` | InfoLogger/src/transport_client.c:683-878 | after any turns, as many turns as there is work left, in which the socket takes something, make the loop idle |
| `Sender.QuietPicksNothing` | InfoLogger/src/transport_client.c:683-878 | those turns pick nothing, so every file picked before has then been sent completely |
| `Sender.FlushKeeps` | InfoLogger/src/transport_client.c:187-221 | sending any part of the buffer keeps sent, buffered and owed bytes balanced |
| `Sender.RefillKeeps` | InfoLogger/src/transport_client.c:800-870 | refilling the buffer with header, blob or nothing keeps the balance |
| `Sender.AdvanceKeeps` | InfoLogger/src/transport_client.c:693-768 | picking a file or queueing its END keeps the balance |
| `Receiver.AnyFragmentation` | InfoLogger/src/transport_server.c:177-435 | however reads cut the stream, the files rebuilt are the first ones sent, unchanged and in order, each with the last byte of its frame read; while the connection is open every such file is rebuilt; it stays open unless a read or the outside fails |
| `Receiver.ReadKeeps` | InfoLogger/src/transport_server.c:177-435 | one read of any part of the stream keeps the connection in step with it |
| `Receiver.ParseKeeps` | InfoLogger/src/transport_server.c:244-430 | the parsing loop keeps the position in the stream, whatever remains for the next read |
| `Receiver.LineClosesIff` | InfoLogger/src/transport_server.c:268-425 | a line closes the connection if and only if the reply fails, a header has no positive size or cannot be read, or END is missing or not taken by the output queue; only an END completes a file |
| `Receiver.ReadClosesIff` | InfoLogger/src/transport_server.c:177-266 | a read closes it if it brings nothing, or leaves no complete line in a full buffer; otherwise all of an incomplete line is kept |
| `Receiver.ClosedStays` | InfoLogger/src/transport_server.c:145-169 | a closed connection reads and completes nothing any more |
| `ServerConnection.Connection.Read` | InfoLogger/src/transport_server.c:177-435 | the read on the fixed buffer does what the specification of a read does |
| `ServerConnection.Connection.ParseBuffer` | InfoLogger/src/transport_server.c:244-430 | the in-place parsing loop computes the specified parse and keeps the rest of the line |
| `ServerConnection.Connection.Keep` | InfoLogger/src/transport_server.c:251-266 | the unparsed bytes move to the beginning of the buffer |
| `Encoding.EncodeIs` | InfoLogger/src/infoLoggerMessage.c:184-308 | for every message, split field and buffer size: either all records, or the outcome at the first record that fails: mark in its last field, mark behind the record before, or give up |
| `Encoding.RecordIs` | InfoLogger/src/infoLoggerMessage.c:215-270 | printing field by field, with truncation, splitting and replacement in the buffer, is printing the text of the record once |
| `Encoding.PutStringIs` | InfoLogger/src/infoLoggerMessage.c:222-250 | printing a string field is printing its first line with separators replaced, however much overflows |
| `EncodedRecords.BufferHoldsWholeRecords` | InfoLogger/src/infoLoggerMessage.c:184-308 | 0 means the record of every line, -1 some whole records and one cut inside its last field and marked; in both cases only complete records |
| `EncodedRecords.FitsIff` | InfoLogger/src/infoLoggerMessage.c:270-302 | the code is 0 if and only if the whole text fits and the text before the last record leaves room for the mark |
| `EncodedRecords.GivesUpIff` | InfoLogger/src/infoLoggerMessage.c:274-296 | encoding fails if and only if the first record fails and its last field leaves no room for the mark |
| `EncodedRecords.SeparatorsOfWhole` | InfoLogger/src/infoLoggerMessage.c:215-270 | a complete record starts with the version, has one `#` per field, one `*` and one line end, the latter two at its ends |
| `Encoder.TextBuffer.Print` | InfoLogger/src/infoLoggerMessage.c:160-181 | appends or fills the buffer and sets the error; a NUL always follows the text |
| `Encoder.TextBuffer.PrintString` | InfoLogger/src/infoLoggerMessage.c:222-250 | append, cut at the line end, replace separators up to the NUL |
| `Encoder.TextBuffer.PrintFields` | InfoLogger/src/infoLoggerMessage.c:217-265 | the field loop prints the fields and stops at the one that did not fit |
| `Encoder.EncodeLines` | InfoLogger/src/infoLoggerMessage.c:205-302 | the loop over lines computes the specified outcome in the buffer |
| `Encoder.EncodeMessage` | InfoLogger/src/infoLoggerMessage.c:184-308 | bad arguments if and only if the buffer is empty or the split field is not a string field, buffer untouched; otherwise the specified code, and the NUL-terminated text in the buffer |
| `MessageDecode.DoubleRoundTrip` | InfoLogger/src/infoLoggerMessageDecode.c:137-149 | a double comes back as the multiple of a millionth that is nearest to it, sign included |
| `Messages.RoundEvenIff` | InfoLogger/src/infoLoggerMessage.c:253-257 | the rounding gives the only integer at most half away, the even one of two |
| `Messages.MicrosNearest` | InfoLogger/src/infoLoggerMessage.c:253-257 | what is printed for a double is within half a millionth of it |
| `MessageDecode.RecordRoundTrip` | InfoLogger/src/infoLoggerMessageDecode.c:67-156 | decoding the record of a line, alone or with a NUL and anything behind it, gives the message back with that line in the split field and every other field normalised |
| `MessageDecode.DecodesIff` | InfoLogger/src/infoLoggerMessageDecode.c:67-110 | a blob decodes if and only if it has the marker, a known version and as many separators as that protocol has fields |
| `MessageDecode.UpToNulEnds` | InfoLogger/src/infoLoggerMessageDecode.c:93-110 | the last field is the text up to the first NUL, or all of it |
| `Decoder.ReadFields` | InfoLogger/src/infoLoggerMessageDecode.c:93-156 | the field loop computes one value per field, the last taking the rest, or fails for a missing separator |
| `Decoder.DecodeBlob` | InfoLogger/src/infoLoggerMessageDecode.c:63-156 | marker, version, protocol and fields of one blob |
| `Decoder.DecodeFile` | InfoLogger/src/infoLoggerMessageDecode.c:16-192 | all blobs decoded and converted, or nothing if one is bad |
| `MessageRoundTrip.EncodeDecode` | InfoLogger/src/infoLoggerMessage.c:210-302 | when encoding returns 0, decoding the newline-separated parts, as they are or sent with a NUL behind each, gives one message per line of the split field, all other fields equal up to the normalisation, in the first protocol |
| `MessageRoundTrip.KnownMessagesSurvive` | InfoLogger/src/infoLoggerMessage.c:5-72 | a field of any of the three protocols that the first one has comes back under it, normalised |
| `MessageRoundTrip.KnownRegistered` | InfoLogger/src/infoLoggerMessage.c:5-72 | the three protocols are well formed and found under their versions |
| `Conversion.InitProtocols` | InfoLogger/src/infoLoggerMessage.c:318-362 | succeeds if and only if every protocol is well formed, and then the tables hold the index of the same name and type |
| `Conversion.Convert` | InfoLogger/src/infoLoggerMessage.c:364-386 | the in-place conversion computes the specified values |
| `Conversion.KeptIff` | InfoLogger/src/infoLoggerMessage.c:374-383 | every value is found under its name and type if and only if no two equal fields disagree |
| `Conversion.EqualFieldsLose` | InfoLogger/src/infoLoggerMessage.c:374-383 | two fields of the same name and type with different values lose the first |
| `Conversion.KnownProtocolsConvert` | InfoLogger/src/infoLoggerMessage.c:364-386 | for the three known protocols every value that has a field is kept, and the other fields are undefined |
| `SpillCacheRuns.CacheIsQueue` | InfoLogger/src/transport_cache.c:176-280 | in every run, with deletions the filter gets right and files with a path only where they are kept: files are handed out in strictly increasing id order, each accepted, and what is left is exactly what was accepted, not deleted and not handed out |
| `SpillCacheRuns.NothingWithheld` | InfoLogger/src/transport_cache.c:433-547 | after an update nothing is handed out only when nothing is left or memory is full of files not yet deleted |
| `SpillCacheRuns.RestartKeepsAll` | InfoLogger/src/transport_cache.c:76-145 | after a save, a cache reopened on the directory hands out exactly what was accepted and not deleted, if no file that was inserted had a path |
| `SpillCacheRuns.CrashAfterSave` | InfoLogger/src/transport_cache.c:555-590 | a crash right after a save, or after an update that saved, loses nothing |
| `SpillCacheRuns.CrashKeepsSaved` | InfoLogger/src/transport_cache.c:76-111 | without the save, exactly those of them written to the directory |
| `SpillCacheRuns.PathIsForgotten` | InfoLogger/src/transport_cache.c:600-651 | a file with a path that went to memory is handed out, but saving does not write it |
| `SpillCacheModel.InsertRefines` | InfoLogger/src/transport_cache.c:176-246 | a file is accepted if and only if it is newer than all before it; it becomes the last to be handed out, in memory or on disk, unless it has a path and does not go to memory: then nothing changes |
| `SpillCacheModel.InsertPlaces` | InfoLogger/src/transport_cache.c:200-235 | where an accepted file is: behind files pending on disk it is written there; otherwise it is the last in memory if that has room; otherwise memory is saved first, so that the directory holds exactly the files before it, and it is written behind them |
| `SpillCacheModel.AcceptedIsKeptIff` | InfoLogger/src/transport_cache.c:176-246 | an accepted file is kept if and only if it has no path, or memory has room and nothing is pending on disk |
| `SpillCacheModel.AcceptedAndLost` | InfoLogger/src/transport_cache.c:600-615 | with a file pending on disk, one that has a path is accepted and nothing of it remains |
| `SpillCacheModel.GetNextRefines` | InfoLogger/src/transport_cache.c:253-280 | hands out the oldest unread file, and nothing only when all unread files are on disk |
| `SpillCacheModel.DeleteExactIff` | InfoLogger/src/transport_cache.c:347-424 | exactly the files up to the given id go, if and only if its major part is not -1 or nothing is pending on disk, and its minor part is not the largest int or no pending file has that major part |
| `SpillCacheModel.DirectoryExactIff` | InfoLogger/src/transport_cache.c:398-420 | the same condition on all files of the spool directory decides whether the directory loses exactly the files up to the id |
| `SpillCacheModel.DeleteGoesWrong` | InfoLogger/src/transport_cache.c:398-404 | deleting up to (5, 2147483647) leaves file (5, 1) on disk, and major id -1 takes a newer file |
| `SpillCacheModel.FillRefines` | InfoLogger/src/transport_cache.c:490-545 | filling changes nothing that can be handed out and stops only when nothing is pending or memory is full |
| `SpillCacheModel.SaveRefines` | InfoLogger/src/transport_cache.c:555-590 | saving changes nothing that can be handed out; the directory then holds exactly the files kept |
| `SpoolNames.NamesSortAsIds` | InfoLogger/src/transport_cache.c:339-342 | within the padded widths names sort as ids do |
| `SpoolNames.NamesSortIff` | InfoLogger/src/transport_cache.c:656-664 | they do so up to a given major id if and only if it has at most eight digits |
| `SpoolNames.TooLarge` | InfoLogger/src/transport_cache.c:656-664 | the name of (100000000, 0) sorts before that of (99999999, 0) |
| `SpoolNames.NameRoundTrip` | InfoLogger/src/transport_cache.c:299-312 | the name of a file is parsed back to its id |
| `SpillCache.ScanKeeps` | InfoLogger/src/transport_cache.c:485-497 | scanning the directory again finds nothing newer than what is known, so an update is a step of a run |
| `SpillCache.OpeningStartsRun` | InfoLogger/src/transport_cache.c:76-111 | a cache just opened is the start of a run with the files of the directory as accepted |
| `SpillCache.Cache.constructor` | InfoLogger/src/transport_cache.c:76-111 | opening loads the oldest files of the directory |
| `SpillCache.Cache.SpaceLeft` | InfoLogger/src/transport_cache.c:149-169 | counts the free slots of the circular array, one slot always kept empty |
| `SpillCache.Cache.InsertFile` | InfoLogger/src/transport_cache.c:176-246 | the insertion on the circular array, of files with or without a path, keeps its invariant and does what is specified |
| `SpillCache.Cache.Next` | InfoLogger/src/transport_cache.c:253-280 | hands out the first new file and moves that index around the array |
| `SpillCache.Cache.DeleteUpTo` | InfoLogger/src/transport_cache.c:347-424 | the removal loop and the directory scan delete what is specified |
| `SpillCache.Cache.Update` | InfoLogger/src/transport_cache.c:433-547 | save on timeout, scan, then fill up in name order |
| `SpillCache.Cache.SaveAll` | InfoLogger/src/transport_cache.c:555-590 | the loop over the array writes every file that has no copy |
| `SpillCache.List` | InfoLogger/src/transport_cache.c:299-342 | the filtered directory, sorted by name, is the selected files in increasing id order |
| `Ring.BoundedFifo` | Common/include/Common/Fifo.h:108-153 | every interleaving of one pusher's and one popper's loads and stores is a bounded first-in first-out queue; the guards of refusals hold exactly when it is full or empty |
| `Ring.StepsDoTheirPart` | Common/include/Common/Fifo.h:108-153 | what each step of an interleaving does: a push is given up if and only if the ring then holds `size` elements, and otherwise appends its item; a pop is given up if and only if the ring is empty, and otherwise hands over the oldest element and clears its slot |
| `Ring.NoSharedSlot` | Common/include/Common/Fifo.h:132-153 | the writer never writes the slot the reader has published and is still reading or clearing |
| `Ring.PopNeverStuck` | Common/include/Common/Fifo.h:132-153 | a pop that was not refused finds its element |
| `Ring.StepKeeps` | Common/include/Common/Fifo.h:108-153 | every atomic step keeps the ring invariant |
| `Ring.QueriesCount` | Common/include/Common/Fifo.h:172-196 | the slot counts and the full test are right between operations |
| `RingFifo.Fifo.Push` | Common/include/Common/Fifo.h:108-130 | appends, refused exactly when `size` elements are stored |
| `RingFifo.Fifo.Pop` | Common/include/Common/Fifo.h:132-153 | takes the oldest element, refused exactly when empty |
| `RingFifo.Fifo.Front` | Common/include/Common/Fifo.h:155-167 | shows the oldest element |
| `RingFifo.Fifo.Slots` | Common/include/Common/Fifo.h:171-200 | free, used, full and empty agree with the contents |
| `Aggregator.MergeTheorem` | Readout/src/DataBlockAggregator.cxx:31-102 | with rising positive ids on every input and no set emitted while an input is empty, set ids rise strictly and each set holds every block of its id |
| `Aggregator.ExecutionConserves` | Readout/src/DataBlockAggregator.cxx:26-102 | over every run, timeouts included: sets are not empty, of one id, at most one block per input in input order; blocks accepted are blocks emitted followed by blocks pending; the final push always finds room |
| `Aggregator.StepConserves` | Readout/src/DataBlockAggregator.cxx:26-102 | one round keeps this whatever arrives or leaves meanwhile |
| `Aggregator.ScanMinLeastIff` | Readout/src/DataBlockAggregator.cxx:31-56 | the first scan computes the least id if and only if all ids are positive or the last head has id 0 |
| `Aggregator.ZeroIdIsSkipped` | Readout/src/DataBlockAggregator.cxx:31-56 | heads with ids 0 and 5: the scan answers 5 |
| `Aggregator.Scan` | Readout/src/DataBlockAggregator.cxx:31-56 | the loop computes the four results of the first scan |
| `Aggregator.Collect` | Readout/src/DataBlockAggregator.cxx:84-98 | the loop takes exactly the heads with the given id, in input order |
| `Aggregator.ThreadCallback` | Readout/src/DataBlockAggregator.cxx:20-109 | one call does what the specification of a round says |
| `Aggregator.AppendsIff` | Readout/src/DataBlockAggregator.cxx:26-71 | a round appends one set or none, and one if and only if the output has room, some input has a block, and no input is empty or the timer has run out |
| `Aggregator.NoTimeoutNoEarlySet` | Readout/src/DataBlockAggregator.cxx:62-71 | over a run in which the timer never runs out no set goes out while an input is empty, which is what the merge theorem asks for |
| `Aggregator.TakesTheLeast` | Readout/src/DataBlockAggregator.cxx:84-98 | a set takes from every input its oldest block if that has the least id seen at the first look, and nothing else |
| `Aggregator.QuietRoundTakesNothing` | Readout/src/DataBlockAggregator.cxx:26-71 | a round that appends nothing leaves every input with all it holds |
| `Aggregator.PendingFlag` | Readout/src/DataBlockAggregator.cxx:62-75 | the timer is wanted from the first round that finds some but not all inputs empty until one that finds a whole set |
| `Superpages.SuperpagesAreQueue` | RORC/src/SuperpageQueue.h:100-183 | in every run what is removed is what was added, in that order, and the rest is in the queue |
| `Superpages.AddKeeps` | RORC/src/SuperpageQueue.h:100-124 | fails if and only if the queue is full, and never overwrites a live entry |
| `Superpages.RemoveKeeps` | RORC/src/SuperpageQueue.h:170-183 | removes the oldest page and frees its registry slot only |
| `Superpages.MoveKeeps` | RORC/src/SuperpageQueue.h:147-166 | succeeds exactly for a ready front page, which goes to the back of the filled queue and whose id is returned; the run of live ids stays the same |
| `Superpages.RemovePushingKeeps` | RORC/src/SuperpageQueue.h:127-143 | the front of the pushing queue leaves it and its id is returned, if and only if it is live and completely pushed; nothing else changes |
| `Superpages.RemoveOrderlyIff` | RORC/src/SuperpageQueue.h:170-183 | the pushing queue stays the youngest part of the run if and only if the page removed has left it |
| `Superpages.RemovedWhilePushing` | RORC/src/SuperpageQueue.h:170-183 | a page filled while still being pushed: removing it leaves its id as the back of an empty queue |
| `Superpages.RunOrderly` | RORC/src/SuperpageQueue.h:127-183 | if pages always leave the pushing queue before they are removed, it always is the youngest part |
| `Superpages.EndsAreOldestAndYoungest` | RORC/src/SuperpageQueue.h:50-84 | the front id is the oldest live page, and the back id the youngest while the pushing queue is in order |
| `SuperpageQueues.SuperpageQueue.constructor` | RORC/src/SuperpageQueue.h:26-29 | starts empty, with every registry slot invalid |
| `SuperpageQueues.SuperpageQueue.AddToQueue` | RORC/src/SuperpageQueue.h:100-124 | the update in place does what is specified and keeps the run consecutive |
| `SuperpageQueues.SuperpageQueue.RemoveFromPushingQueue` | RORC/src/SuperpageQueue.h:127-143 | takes the front page if it is completely pushed |
| `SuperpageQueues.SuperpageQueue.MoveFromArrivalsToFilledQueue` | RORC/src/SuperpageQueue.h:148-166 | moves the front page if it is ready; the run is unchanged |
| `SuperpageQueues.SuperpageQueue.RemoveFromFilledQueue` | RORC/src/SuperpageQueue.h:170-183 | takes the oldest filled page, and says when the pushing queue stays in order |
| `SuperpageQueues.SuperpageQueue.GetFrontSuperpage` | RORC/src/SuperpageQueue.h:87-95 | the entry of the oldest live page; none exactly when empty |
| `SuperpageQueues.SuperpageQueue.GetBackSuperpageId` | RORC/src/SuperpageQueue.h:50-65 | the back of the first of the three queues that has one; the youngest live id, none exactly when empty, while the pushing queue is in order |
| `PageFlow.PagesConserved` | Readout/src/ReadoutEquipmentRORC.cxx:133-302 | in every run in which returns of pages do not overlap, every page is in exactly one place; a page given back always finds room, and so does one pushed to the output queue |
| `DmaPages.PagesDisjoint` | Readout/src/ReadoutEquipmentRORC.cxx:70-80 | pages do not overlap and lie inside the buffer |
| `DmaPages.CutIntoPages` | Readout/src/ReadoutEquipmentRORC.cxx:70-80 | the ring is filled with the offset of every whole page |
| `PageFlow.StepConserves` | Readout/src/ReadoutEquipmentRORC.cxx:133-302 | each move of a page, failed construction of a container included, keeps every page where it is counted |
| `PageFlow.CheckConservesIff` | Common/include/Common/Fifo.h:114-122 | the check of a return keeps every page if and only if the slot aimed at is not the start of the ring |
| `PageFlow.PushOutConservesIff` | Readout/src/ReadoutEquipmentRORC.cxx:282-302 | a push into the output queue keeps the page if and only if the queue is not full |
| `PageFlow.WriteConservesIff` | Common/include/Common/Fifo.h:120-125 | the write of a return keeps every page if and only if it does not overwrite another page in the ring |
| `PageFlow.PublishConservesIff` | Common/include/Common/Fifo.h:125-127 | the publication of a return keeps every page if and only if its slot follows the end of a ring that is not full and still holds the page |
| `PageFlow.OverlapLoses` | Readout/src/ReadoutEquipmentRORC.cxx:133-136 | from every state with two pages held and no return in progress, two returns that overlap lose a page |
| `PageFlow.TwoHeldReached` | Readout/src/ReadoutEquipmentRORC.cxx:265-302 | such a state is reached with two pages |
| `DmaPages.Equipment.GivePages` | Readout/src/ReadoutEquipmentRORC.cxx:265-280 | as many free pages as the driver takes, in order |
| `DmaPages.Equipment.CollectPages` | Readout/src/ReadoutEquipmentRORC.cxx:282-305 | stops exactly at a page not filled, a container that cannot be made, an empty driver or a full output queue |
| `DmaPages.Equipment.PopulateFifoOut` | Readout/src/ReadoutEquipmentRORC.cxx:249-311 | as many free pages as the driver takes are given, and then pages collected up to one of the four reasons to stop; output, driver and free pages together stay the same sequence; active if and only if a page moved |
| `SharedPool.NoTwoHolders` | DataFormat/src/MemPool.cxx:74-103 | whatever the interleaving of loads, tests, clears and stores: a page held has its flag set and no other holder, and a flag set without a holder is that of a page whose release missed it |
| `SharedPool.ClearsOwnOnly` | DataFormat/src/MemPool.cxx:91-103 | a flag is cleared only by the thread that has the page |
| `SharedPool.GivesUpIff` | DataFormat/src/MemPool.cxx:74-86 | over every run: a get gives up if and only if it now finds set the flag it tests and has found set the flag of its turn in each of the earlier ones; it goes on to a page if and only if the flag is clear |
| `SharedPool.GaveUpFoundAll` | DataFormat/src/MemPool.cxx:74-86 | a get during which no other thread got a page gives up only after it has found every page in use |
| `SharedPool.LosesIff` | DataFormat/src/MemPool.cxx:91-103 | a release misses its page if and only if none of the turns of its search, each with the start then in force, leads to it |
| `SharedPool.UndisturbedFinds` | DataFormat/src/MemPool.cxx:91-103 | a search during which no release is published finds its page, from any start |
| `SharedPool.CalmLosesNothing` | DataFormat/src/MemPool.cxx:91-103 | over a run in which no search is disturbed, no page is lost |
| `SharedPool.LostForEver` | DataFormat/src/MemPool.cxx:74-103 | a page that was missed stays marked as used and nobody gets it |
| `SharedPool.ReleaseCanMiss` | DataFormat/src/MemPool.cxx:91-103 | a run of two threads on three pages after which page 2 is in use and nobody has it |
| `MemPools.MemPool.GetPage` | DataFormat/src/MemPool.cxx:74-86 | without interference: nothing if and only if every page is in use, from any start; otherwise exactly the first free page in turn is marked |
| `MemPools.MemPool.ReleasePage` | DataFormat/src/MemPool.cxx:91-103 | exactly the given page becomes free, and the next search starts behind it; an unknown address changes nothing |
| `LineBuffers.BothCutAlike` | InfoLogger/src/utility.c:219-326 | both buffers, given the same stream in any pieces, have given the same lines and keep the same rest once neither has another line |
| `LineBuffers.LineBuffer.Append` | Common/src/LineBuffer.cxx:48-80 | lines returned, lines waiting and the pending text stay equal to the bytes read, for any chunk |
| `LineBuffers.LineBuffer.GetNextLine` | Common/src/LineBuffer.cxx:89-99 | the next line in order; none only when no complete line was read |
| `LineBuffers.CharBuffer.Allocate` | InfoLogger/src/utility.c:189-215 | grows the buffer, refused exactly beyond 200000 bytes |
| `LineBuffers.CharBuffer.Read` | InfoLogger/src/utility.c:244-262 | takes as much of the input as there is, as asked for, or as fits; keeps used below size and the NUL behind the text |
| `LineBuffers.CharBuffer.GetLine` | InfoLogger/src/utility.c:275-326 | the first line; none if and only if the text has no line end; the rest stays |

## Left out

- Torn writes, failing allocation and failing system calls: each append, header write and rename is atomic and succeeds.
- PermFifoRuns.CrashRecovery: crashes fall between operations, or between system calls of a cleaning; the one inside an acknowledgement is treated by itself (`PermFifoRuns.TornAckIff`).
- The memory-only FIFO (no path), in which a write that fails uses up an id.
- PermFifoRuns.RunRefines: acknowledgements only of ids already read, and ids below 2^32; the limit is exact (`PermFifoModel.ReadReturnsHeadIff`).
- PermFifoModel.ScanFindsNextIff: speaks of the scan alone; `PermFifoModel.ReadReturnsHeadIff` says what the read answers.
- PermFifo.PermFifo.Read: waiting with a timeout is not modelled, only the answer once there is no waiting left.
- The byte offset in the FIFO file is a count of records, and the item sizes and tags of the file format are implied.
- TransportSession.Delivery: one message-mode client, ids below 2^31; connection states before CONNECTED, watchdog, CLOSE requests and shutdown only appear as disconnections; that files complete in the order of their ENDs is a condition of the step, proved of the byte streams by `ByteOrder.CompletionOrder`.
- Restarts.NothingFlushedIsLost: items written and not flushed are lost in a crash, as they are in the source; ids below 2^31.
- The text of acknowledgement lines; a line is sent whole or not at all.
- The connection counter of the server does not wrap around.
- Files on disk as the source of a transfer, the UDP server, statistics, the proxy and clients routed through it.
- Receiver.AnyFragmentation: greeting and header lines without NUL that fit the client's buffer, a source name without white space, a positive size, as the protocol asks.
- ServerConnection.Connection.Read: bytes left in the buffer of a closed connection are forgotten, which nothing reads again.
- Doubles are real numbers rounded to six decimals, halves to even; infinities and not-a-number do not occur.
- Numbers in records fit their C types; field types other than string, int and double, refused when protocols are initialised, have no values.
- Decoder.ReadFields: numbers of double fields are decimal, with or without exponent; hexadecimal, infinite and not-a-number notation is not read.
- Decoder.DecodeBlob: the same notation of doubles.
- Decoder.DecodeFile: the same notation of doubles; the blob is not overwritten in place and the list of messages is a sequence; conversion tables are initialised before.
- SpillCacheRuns.CacheIsQueue: excludes what the code does not keep or does not delete, which `SpillCacheModel.AcceptedIsKeptIff` and `SpillCacheModel.DeleteExactIff` state exactly.
- SpillCache.Cache.DeleteUpTo: incrementing the largest minor id, which C leaves undefined, wraps around to the smallest.
- Usage counts and locks of files in the cache.
- SpillCache.Cache.Update: which file's save timer has run out is a boolean; spool files whose names were not made by the cache do not occur.
- `Fifo::clear`, which is a teardown operation, and the counters of pushes and pops.
- Aggregator.ThreadCallback: input and output rings are sequences with arrivals before and between the two looks at an input; a failed allocation of the set is left out.
- PageFlow.PagesConserved: covers returns that do not overlap; what overlapping ones lose is stated by `PageFlow.OverlapLoses`. The one reader's pop is a single step, as the ring allows.
- DmaPages.CutIntoPages: requires page count times page size within the range of an int; rounding to huge pages and base alignment happen before.
- DmaPages.Equipment.PopulateFifoOut: the driver is a queue that takes and fills pages as the environment says.
- SharedPool.NoTwoHolders: a release that misses its page does not give it back; `SharedPool.LosesIff` says exactly when.
- LineBuffers.CharBuffer.Read: polling and end of file are the caller's; streams have no NUL.
- Daemon and configuration code, the control state machine, GUI, quality control, MySQL, and the PCI layer.
