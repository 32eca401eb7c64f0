# Byte streams, queues and tables of uGate

uGate is a gateway that captures, sniffs and forwards connections. This project models its
byte-moving layer and its small concurrent tables, and proves what they guarantee over all
inputs, all ways a stream is cut into reads, and all interleavings.

| files | component |
|---|---|
| `RecvQueue`, `RecvQueueRuns`, `RecvQueueResults`, `RecvQueueEof`, `RecvQueueLive`, `RecvBuffer` | the receive queue: a capacity-1 channel with a backlog, and `Read` on top |
| `Streams`, `Buffers` | readers and writers as scripts; the cursor buffer and the peeking reader |
| `Framing` | length-prefixed messages: `Recv`, `Send` |
| `UdsFrames`, `UdsText` | framed text messages on a Unix domain socket |
| `ClientHello`, `HelloExact` | the TLS ClientHello sniffer, the encoder it inverts, and exactly which records it answers |
| `Copier`, `Proxy`, `ProxyRuns`, `CopierRuns` | the copy loop, the two-way proxy as steps, and the loop as a run of them |
| `Nat`, `NatSweeps`, `Crawl`, `Dns`, `DnsExact` | the UDP NAT table, the mesh crawler, the DNS reverse index |
| `Bytes` | bytes and fixed-width integers |

`dafny verify dfyconfig.toml` checks the whole project.

## How it is modelled

- **Concurrency.** The receive queue, the proxy and the NAT table are step machines. A step is one
  critical section, one channel operation or one look at a shared field. A run is any sequence of
  actions; an action that is not enabled when its turn comes is skipped. Theorems are about the
  state after every run, so they hold at every moment of every interleaving. `RecvBuffer` is the
  code itself: every place where other goroutines can run is a `Turn` of an arbitrary schedule,
  and a ghost trace ties each method to a run of the machine.
- **Readers** are scripts of results (`Streams.Chunk`): pieces of any size, possibly empty,
  possibly together with an error. Quantifying over scripts quantifies over all segmentations.
- **Failure outcomes** of the Go code are values: `Stalled` (a loop that reads into an empty slice),
  `Diverges` (a loop that stays on one line), `OutOfRange` (an index beyond a slice), `Crash`
  (a missing response, a slice beyond the receive array), `panicked` (a send on a closed channel,
  a missing map entry).
- **Library behaviour** that decides an outcome is a parameter: whether a read into an empty slice
  takes a byte off a Unix socket (`UdsConn.takesByte`).
- **Times, addresses and sockets** are numbers; clocks and the network are parameters.

## What the code does differently from its documentation

- `Read` of the receive queue does not repeat EOF (nio/recvbuf.go:216): after the EOF message was
  taken a further `Read` spins on a closed channel, even if it is cancelled, or blocks on an open one
  (`RecvQueueEof.EofIsNotRepeated`, `RecvQueueEof.OpenChannelBlocks`). It may also report EOF
  while bytes are still queued; `RecvQueueEof.EofExact` gives the exact inputs for which no
  interleaving does that.
- `Peek` does not always resize the buffer (nio/buf.go:396): with consumed bytes in front it can
  wait forever. `Buffers.Room` is the exact condition, and `Buffers.StalledPeek` gets there with
  three calls.
- `Recv` allows a stream without a response (nio/stream_in_out.go:1059) but reads the trailer of it
  (line 1109): without one, every frame and the regular end of the stream crash. A length within 5
  of 2^32 is answered with a frame whose end lies before its start and no error, and the next `Recv`
  crashes on it (`Framing.CrossedFrame`).
- A payload of 32764 to 32768 bytes passes the length check of `nextMessage` and never fits its
  array (`UdsFrames.SendTooLarge`): the call reports EOF, or slices beyond the array if the library
  takes a byte off the socket for an empty slice. A read that carries only control messages is
  reported as EOF, and bytes that come with control messages which cannot be parsed are dropped.
- `nextMessage` is documented as the gRPC format (pkg/uds/uds.go:398) but its length is little endian.
- A header line without a colon keeps `ParseMessage` in its loop (pkg/uds/stream.go:105-107,
  `UdsText.NoColonDiverges`).
- The sniffer promises nil for an invalid hello (nio/sni.go:39). On the records of
  `HelloExact.OutOfRangeExact`, all those of length 38 among them, it indexes beyond its slice
  instead; `clientHello[off:off+length]` may reach behind the record; and an extension that runs
  past the record is accepted (`HelloExact.OverrunIsAnswered`).
- `HostByAddr` returns the first name learned for an address, not the last (pkg/dns/dns.go:224).
- A NAT entry counts as idle until its first write, is closed by a sweep that found it idle even if
  it was written to since, and sweeps can overlap because a failed listen
  starts one (pkg/udp/udpproxy.go:434). Overlapping sweeps can panic; `NatSweeps.PanicExact` says
  exactly when. A sweep may also close an entry it never collected (`NatSweeps.ClosesUncollected`);
  `NatSweeps.SweepExact` says exactly when it closes what it collected.
- A NAT socket is left open without an entry when resolving its route fails
  (pkg/udp/udpproxy.go:447-449), and when two first packets of one client overlap.
  `Nat.NoOrphansExact` says that nothing else does this.

## Model

| member | source | states |
|---|---|---|
| RecvQueue.AlwaysInv | nio/recvbuf.go:83-129 | every interleaving of puts, receives, separate reloads, cancellations and timeouts keeps FIFO order, the wake-up condition, the sticky error, and (if only Read is called) byte and buffer accounting |
| RecvQueueRuns.QueueSafety | nio/recvbuf.go:83-129 | taken ++ channel ++ backlog is what was accepted; a waiting reader with pending messages can proceed; a closed channel has an empty backlog and never gets another send |
| RecvQueueRuns.AcceptedIsOffered | nio/recvbuf.go:83-93 | without cancellation the accepted messages are the offered ones up to and including the first error |
| RecvQueueRuns.ByteStream | nio/recvbuf.go:217-305 | bytes delivered ++ held ++ in hand ++ queued are the bytes accepted; the counts Read returned add up to the bytes delivered |
| RecvQueueRuns.Ownership | nio/recvbuf.go:219-247 | with distinct buffers: none is recycled twice, none while held or queued, all once the queue is drained |
| RecvQueueRuns.RecycledAreDrained | nio/recvbuf.go:356-364 | the recycled buffers are a prefix of the accepted ones, and all their bytes were delivered |
| RecvQueueRuns.HardErrorsStick | nio/recvbuf.go:267-273 | after a Read returned an error other than EOF or a timeout, every later Read of a non-empty slice returns 0 and that error |
| RecvQueueResults.MixedStream | nio/recvbuf.go:131-305 | over runs that mix Read, Recv and RecvNB: bytes handed out, by copying, with a message or through the shared left-over buffer ++ left over ++ in hand ++ queued are the bytes accepted |
| RecvQueueResults.RecvReturns | nio/recvbuf.go:131-213 | Recv returns and keeps the left-over buffer, else an error other than EOF, else the next message |
| RecvQueueResults.RecvWaits | nio/recvbuf.go:147-212 | what Recv and RecvNB return when no message is there |
| RecvQueueResults.ErrorIsReported | nio/recvbuf.go:217-305 | in every run, once the error message was taken and no call is under way, some call has returned that error: EOF is never swallowed |
| RecvQueueResults.AlwaysSane | nio/recvbuf.go:217-305 | every result of Read: at most the bytes asked for, no error but the sticky one of the queue or a deadline, and nothing at all only if an empty buffer was put |
| RecvQueueResults.HardComesFirst | nio/recvbuf.go:267-273 | an error other than EOF is returned before anything queued |
| RecvQueueResults.InterruptedRead | nio/recvbuf.go:279-304 | a deadline leaves no trace, a cancellation sticks unless there is an error already |
| RecvQueueEof.CleanIsSound | nio/recvbuf.go:279-294 | if no empty buffer was accepted before a non-empty one, a reported EOF means that everything was delivered |
| RecvQueueEof.EarlyEof | nio/recvbuf.go:279-294 | for any other input that ends in EOF, an interleaving that reports EOF with bytes still queued |
| RecvQueueEof.EofExact | nio/recvbuf.go:217-305 | EOF comes last in every interleaving of an input if and only if no empty buffer precedes a non-empty one |
| RecvQueueEof.EofIsReported | nio/recvbuf.go:232-261 | once all data was consumed, the next Read of a non-empty slice returns 0 and EOF |
| RecvQueueEof.EofIsNotRepeated | nio/recvbuf.go:232-261 | a Read started after the EOF message was taken never returns: on a closed channel whatever happens, on an open one without a cancellation or a deadline |
| RecvQueueEof.OpenChannelBlocks | nio/recvbuf.go:274-304 | on an open channel it blocks; a cancellation makes it report EOF again, a deadline reports itself |
| RecvBuffer.RecvBufferReader.Put | nio/recvbuf.go:83-111 | one step of the machine; the send is never on a closed channel |
| RecvBuffer.RecvBufferReader.ReloadChannel | nio/recvbuf.go:118-129 | moves the head of the backlog into an empty channel, else changes nothing |
| RecvBuffer.RecvBufferReader.Gather | nio/recvbuf.go:230-261 | the loop is a run of the machine that ends in a return or behind the loop, with p holding exactly the bytes delivered; it is unfinished only when its turns are used up, each of them a step |
| RecvBuffer.RecvBufferReader.ReadBlocking | nio/recvbuf.go:308-353 | the blocking select is a run that ends with a message, a cancellation or the deadline, or is still blocked when its turns are used up |
| RecvBuffer.RecvBufferReader.ReadAdditional | nio/recvbuf.go:356-370 | copies a received message after the reload, keeping what does not fit |
| RecvBuffer.RecvBufferReader.Conclude | nio/recvbuf.go:279-305 | merges the error of the blocking receive with Err as the machine does |
| RecvBuffer.RecvBufferReader.Read | nio/recvbuf.go:217-305 | under every schedule the call is a run of the machine, returns exactly the bytes it copied, and on a clean input reports EOF only when everything was delivered; an error message that was taken has been reported; it is unfinished only at the end of the schedule, and with data waiting it finishes with bytes or a hard error within a bounded number of turns |
| RecvQueueLive.ReadProgress | nio/recvbuf.go:217-305 | a Read of a non-empty slice that finds data waiting comes closer to its return with each own step, whatever is put meanwhile, and returns bytes or the hard error put |
| RecvQueueLive.ReadReturns | nio/recvbuf.go:217-305 | it has returned after three own steps per message queued or put meanwhile, and three more |
| Buffers.ChunkSize | nio/pool.go:37-47 | the chunk is at least as large as asked, and at least 1024 bytes |
| Buffers.Buffer.constructor | nio/buf.go:55-64 | an empty buffer with the prefix reserved |
| Buffers.Buffer.Grow | nio/buf.go:205-219 | the unread bytes are kept; the array grows to max(n, 2*cap) exactly when there is not more than n bytes of room |
| Buffers.Buffer.Compact | nio/buf.go:221-230 | the unread bytes move to the front, overlapping ranges included |
| Buffers.Buffer.Fill | nio/buf.go:247-284 | the stream seen by the caller does not change; with room it yields i bytes exactly when the stream has them, without room it never does |
| Buffers.Buffer.FillLoop | nio/buf.go:272-283 | the read loop ends, short only at the end of the stream or of the array |
| Buffers.Buffer.Reserve | nio/buf.go:268-270 | afterwards the bytes fit the array if and only if there was room |
| Buffers.StalledPeek | nio/buf.go:247-284 | peeking at a full buffer, reading most of it and peeking beyond what is left of the array never ends, although the stream has the bytes |
| Buffers.Buffer.Write | nio/buf.go:102-108 | appends; the buffer stays usable exactly when the bytes fit what grow allocates, and growing drops the reserved prefix |
| Buffers.Buffer.UpdateAppend | nio/buf.go:123-130 | adopts the appended slice, the start does not move |
| Buffers.Buffer.Discard | nio/buf.go:286-297 | drops n unread bytes; past the buffered size the cursors cross |
| Buffers.Buffer.ReadBlocking | nio/buf.go:315-322 | returns a prefix of buffered ++ unread bytes and leaves the rest |
| Buffers.BufferReader.constructor | nio/buf.go:349-352 | the view is the reader's stream |
| Buffers.BufferReader.Peek | nio/buf.go:402-404 | the view does not change; succeeds exactly when the view has i bytes, given room |
| Buffers.BufferReader.Read | nio/buf.go:414-416 | returns and removes a prefix of the view |
| Buffers.BufferReader.Discard | nio/buf.go:357-389 | removes exactly n bytes of the view unless the reader fails first |
| Framing.DecodeEncode | nio/stream_in_out.go:1084-1113 | a payload is decoded from its frame if and only if 5 plus its length fits 32 bits |
| Framing.WireFrame | nio/stream_in_out.go:1132-1135 | a zero byte, the length with the highest byte first, the payload |
| Framing.FramedStream.Advance | nio/stream_in_out.go:1066-1080 | the previous frame is dropped and the rest starts at offset 0, so that both fills have room |
| Framing.FramedStream.NextFrame | nio/stream_in_out.go:1084-1114 | the answer is decided by the decoded remaining bytes: payload, bad first byte, end or error, or a frame that ends inside the header when the length wraps; without a response every frame and the end crash |
| Framing.FramedStream.Recv | nio/stream_in_out.go:1051-1115 | a failed round trip, then a status outside 200 to 299, is returned; a first byte other than 0 is refused; a stream cut short gives its error, or EOF with the announced frame; never depends on the segmentation, never stalls; behind a frame with crossed bounds it crashes |
| Framing.FramedStream.RecvTwice | nio/stream_in_out.go:1066-1114 | a call behind a frame without error crashes if and only if the length of that frame plus 5 did not fit 32 bits |
| Framing.CrossedFrame | nio/stream_in_out.go:1066-1114 | for every such header on the wire the first call returns the crossed frame and the second crashes |
| Framing.FramedStream.RecvAll | nio/stream_in_out.go:1051-1115 | the k-th call returns the k-th payload, then the end of the stream is reported |
| Framing.FramedStream.GetWriteFrame | nio/stream_in_out.go:1120-1123 | an empty buffer with 14 bytes reserved |
| Framing.FramedStream.Send | nio/stream_in_out.go:1126-1143 | writes the encoded frame, or a prefix of it if the writer fails |
| Framing.Append | nio/buf.go:121-130 | appending through BytesAppend and UpdateAppend keeps the prefix, reallocated or not |
| Framing.Exchange | nio/stream_in_out.go:1051-1143 | messages sent in order and cut into reads in any way are received unchanged and in order |
| UdsFrames.DecodeEncode | pkg/uds/uds.go:415-444 | a payload is decoded from its frame if and only if its length is between 1 and 32763; what becomes of every other size |
| UdsFrames.WireFrame | pkg/uds/stream.go:58-60 | a zero byte, the length with the lowest byte first, the payload |
| UdsFrames.Assemble | pkg/uds/stream.go:41-60 | the array is the header and the concatenated parts |
| UdsFrames.SendFrameLenBinary | pkg/uds/stream.go:40-70 | the frame is written in one piece; without a writer nothing is |
| UdsFrames.UdsConn.MoveLeftover | pkg/uds/uds.go:406-414 | leftover bytes move to the front in place, none lost |
| UdsFrames.UnixSocket.Read | pkg/uds/uds.go:332-345 | what a read delivers, on its own or with an error, in terms of the bytes heard and how the socket stops |
| UdsFrames.UdsConn.Read | pkg/uds/uds.go:447 | appends what arrives; a read without usable bytes comes behind all that is heard and tells how the socket stopped |
| UdsFrames.UdsConn.ReadFull | pkg/uds/uds.go:447 | a read with the array full: EOF, or one byte too many where the library takes one |
| UdsFrames.HeardMeans | pkg/uds/uds.go:332-345 | all usable pieces are heard; the first other one ends it with its error, or as EOF if it carried only control messages |
| UdsFrames.UdsConn.NextMessage | pkg/uds/uds.go:402-459 | the result is decided by leftover ++ unread bytes and the error behind them, not by how they arrive; a length of 0 or above 32768 is refused, a message cut short gives the EOF or error of the socket |
| UdsFrames.ReceiveAll | pkg/uds/uds.go:402-459 | any payloads of 1 to 32763 bytes come back in order, then the EOF or error of the socket |
| UdsFrames.SendTooLarge | pkg/uds/uds.go:415-447 | a payload of 32764 to 32768 bytes, sent and cut into reads in any way, ends in EOF, or in a slice beyond the array |
| UdsText.HeaderLine | pkg/uds/stream.go:95-103 | one header line, or the end of the header |
| UdsText.ParseHeader | pkg/uds/stream.go:93-114 | the loop ends if and only if every header line has a colon, and then has entered all pairs |
| UdsText.ParseMessage | pkg/uds/stream.go:75-121 | returns the meaning of the text, or never ends; without a newline the whole text is the command |
| UdsText.PackMeta | pkg/uds/uds.go:299-313 | one line per entry in the iteration order, and an empty line |
| UdsText.SplitJoin | pkg/uds/stream.go:93-118 | splitting a header into lines undoes joining them |
| UdsText.ParseUndoesWrite | pkg/uds/stream.go:75-121 | parsing gives back command, map and data, in every iteration order |
| UdsText.NoColonDiverges | pkg/uds/stream.go:93-114 | any message with a header line without colon is never parsed |
| UdsText.CommandOnly | pkg/uds/stream.go:82-87 | a message without a newline is a command with nothing else |
| UdsText.OpenHeader | pkg/uds/stream.go:93-118 | without an empty line, what follows the last header line is the data |
| UdsText.LaterLineWins | pkg/uds/stream.go:104-112 | key and value are what stands around the first colon; a later line with the same key replaces an earlier one |
| UdsText.SendAndParse | pkg/uds/uds.go:470-476 | the same from SendMessageDirect through the socket, the reassembly and the parser |
| ClientHello.SniffUndoesEncode | nio/sni.go:47-185 | for every well-formed single-record hello the answer is its session id, cipher suites and server name, whatever follows it; a host name with a trailing dot is refused; no index leaves the record |
| ClientHello.SingleServerName | nio/sni.go:142-174 | with one server_name extension the answer is its first host name |
| ClientHello.LastServerName | nio/sni.go:142-174 | of several server_name extensions the last one with a host name is the answer |
| ClientHello.MalformedServerName | nio/sni.go:142-174 | one malformed server_name extension spoils the message |
| ClientHello.FirstHost | nio/sni.go:153-174 | the first host name of a list decides; a trailing dot is malformed |
| ClientHello.AnswerExact | nio/sni.go:47-87 | exactly when a connection is not TLS, ends too early, or announces an invalid record length |
| ClientHello.ExtsUndo | nio/sni.go:133-180 | the extension loop undoes the encoding of any extension list |
| ClientHello.NamesUndo | nio/sni.go:153-174 | the name loop finds the first host name of any name list |
| ClientHello.FixedUndo | nio/sni.go:89-131 | session id, cipher suites and the start of the extensions of any encoded message |
| ClientHello.FixedRange | nio/sni.go:92-101 | the fixed part is indexed beyond the record exactly when the record ends before the session id length or inside the cipher list length |
| ClientHello.Record38 | nio/sni.go:75-92 | a record of length 38 passes the length check and is always indexed out of range |
| HelloExact.NamesExact | nio/sni.go:153-174 | the name loop finds h if and only if the list is names of other kinds, then the host name h without trailing dot, then anything; it finds none if and only if all names are of other kinds |
| HelloExact.ExtsBeyondExact | nio/sni.go:133-180 | the extension loop leaves its slice if and only if behind some whole extensions, none malformed, a header is cut off or a server_name runs past the array |
| HelloExact.ExtsAtExact | nio/sni.go:133-180 | it ends with a name if and only if behind some whole extensions, none malformed, the record ends or one more extension runs past it |
| HelloExact.LaidOutParses | nio/sni.go:89-131 | session id, cipher suites and extensions of any record with this layout |
| HelloExact.PartsOf | nio/sni.go:89-131 | the converse: the checks of the fixed part let only records with this layout pass |
| HelloExact.OutOfRangeExact | nio/sni.go:89-180 | the exact condition for an index or slice out of range, over all records |
| HelloExact.SniffOutOfRange | nio/sni.go:47-180 | the same on what the client sends |
| HelloExact.SniffedExact | nio/sni.go:89-185 | exactly which records are answered, and with what, stated by the encoder alone: the converse of undoing the encoding |
| HelloExact.OverrunIsAnswered | nio/sni.go:133-180 | a last extension longer than the record is accepted, unless it is a server_name |
| ClientHello.ReadNames | nio/sni.go:153-174 | the loop ends and computes the parse of the list |
| ClientHello.WalkExts | nio/sni.go:133-180 | the loop ends and computes the parse of the extensions, out-of-range indexes included |
| ClientHello.ReadCiphers | nio/sni.go:107-112 | cipher i is the big-endian pair at its position |
| ClientHello.ReadFixed | nio/sni.go:89-131 | the checks and positions of the fixed part |
| ClientHello.SniffClientHello | nio/sni.go:47-87 | the stream is left unchanged, and the result depends only on the bytes sent: not TLS iff the first byte is not 0x16, a read error iff the client ends before header or record, invalid for a length outside 38 to 16384; on a fresh reader it never hangs |
| Copier.ReaderCopier.Forward | nio/streams.go:308-333 | a prefix is written and counted; anything short is an error |
| Copier.ReaderCopier.Pump | nio/streams.go:281-373 | the sink's new bytes are a prefix of the source with exact counters; complete unless a write failed |
| Copier.ReaderCopier.Copy | nio/streams.go:281-374 | no error means the whole source was written up to EOF or an idle timeout; a read error comes after the whole source; if asked, the writer is half closed, closed or marked at the end, and both ends are closed after an error |
| Copier.SniffThenCopy | pkg/sni/sni.go:27-67 | whatever the sniffer answers, what is forwarded is exactly what the client sent |
| CopierRuns.LoopIsRun | nio/streams.go:281-373 | any reads, the last of them perhaps written in part, are a run of reads and writes of one direction of the proxy machine |
| CopierRuns.CopyIsRun | nio/streams.go:281-374 | Copy is such a run: same bytes written, same connections closed, failed exactly if it reports an error |
| Proxy.AlwaysInv | nio/proxy.go:39-62 | every interleaving: each sink holds a prefix of its source, a copier without error has moved all of it, a failure closes its connections and then those of the other direction |
| ProxyRuns.ProxySafety | nio/proxy.go:43-102 | Proxy returns after both signals; its error is nil iff neither direction failed, and then both sinks hold their whole source, else that of the direction that failed, or both; after the return all that can be closed is closed |
| ProxyRuns.AlwaysClosed | nio/streams.go:340-432 | in every interleaving: a direction that ended without failure has shut down or closed what it wrote to, and nothing is closed before |
| ProxyRuns.SignalsOnce | nio/streams.go:235-240 | each copier signals exactly once by the time Proxy returns |
| ProxyRuns.MeasureDecreases | nio/proxy.go:43-62 | every step comes closer to the return, except an empty read, which changes nothing |
| ProxyRuns.NeverStuck | nio/proxy.go:43-62 | until it returns there is a step that needs no failure of a peer |
| ProxyRuns.RestsExactly | nio/proxy.go:43-88 | a run has no step left but empty reads if and only if Proxy has returned |
| ProxyRuns.AlwaysReturns | nio/proxy.go:18-88 | every run, failures included, can be continued without further failures to the return |
| ProxyRuns.Terminates | nio/proxy.go:18-88 | every schedule takes at most 3*(bytes)+7 steps other than empty reads |
| ProxyRuns.HalfCloseExact | nio/streams.go:409-432 | with well-behaved peers Proxy never fails if and only if the dialed side has CloseWrite and closing the client's writer does not close its reader |
| Nat.NatSafety | pkg/udp/udpproxy.go:252-300 | over every orderly run: no shared sockets, replies go to the client whose first packet opened the socket with the source that packet was sent to, packets go to its route or destination, the open sockets without an entry are exactly those whose route failed to resolve, what a sweep collected is still there unchanged |
| Nat.AlwaysBase | pkg/udp/udpproxy.go:420-478 | in every run, orderly or not: entries are open and belong to their client, loops and replies serve the client that opened the socket |
| NatSweeps.SweepExact | pkg/udp/udpproxy.go:494-542 | from any state of any run: a sweep closes and deletes exactly the entries it collected as idle if and only if no entry of a collected client was inserted and none closed by another sweep meanwhile; otherwise it panics or closes an entry it never collected |
| NatSweeps.OrderlySweep | pkg/udp/udpproxy.go:494-542 | in an orderly run it always closes and deletes exactly what it collected, even if it was written to since |
| NatSweeps.ClosesUncollected | pkg/udp/udpproxy.go:494-542 | a run from the empty table in which a sweep closes an entry it never collected and leaves the collected one open |
| NatSweeps.PanicExact | pkg/udp/udpproxy.go:536-541 | a run panics if and only if two of its actions close sweeps that collected a common client, with no entry of that client inserted between them |
| NatSweeps.ActiveMeans | pkg/udp/udpproxy.go:459-541 | in every run a client has an entry if and only if one was ever inserted and none closed since |
| NatSweeps.CollidingSweeps | pkg/udp/udpproxy.go:494-542 | a run from the empty table that ends in this panic |
| NatSweeps.NeverPanics | pkg/udp/udpproxy.go:494-542 | with one sweep at a time nothing panics, even if first packets overlap |
| Nat.OrphansAreLost | pkg/udp/udpproxy.go:423-463 | over every run the open sockets without an entry are exactly those lost by a failed resolve or a replacing insert |
| Nat.NoOrphansExact | pkg/udp/udpproxy.go:423-463 | there are none if and only if in the whole run resolving never failed behind an open socket and no insert found an entry of its client |
| Nat.OrphanForever | pkg/udp/udpproxy.go:494-542 | such a socket stays open and without an entry for ever; no sweep collects it |
| Nat.OrphanedSocket | pkg/udp/udpproxy.go:423-463 | from any state, two first packets of one client in flight leave such a socket, with its read loop running |
| Nat.UDPListener.CollectIdle | pkg/udp/udpproxy.go:498-529 | any iteration order collects, each once, exactly the clients whose socket was never written to or last longer ago than the timeout |
| NatSweeps.IdleExact | pkg/udp/udpproxy.go:474-529 | the same over runs: by the times of the packets written to the socket |
| Nat.UDPListener.CloseIdle | pkg/udp/udpproxy.go:536-541 | closes and deletes exactly the collected entries |
| Crawl.Watcher.Neighbors | cmd/watcher.go:144-163 | unknown nodes are added as new and dirty, known ones are untouched |
| Crawl.Watcher.Pass | cmd/watcher.go:194-209 | one pass, in any order and with any insertions seen or not, grows the table, cleans a node, or finds all clean |
| Crawl.Watcher.Crawl | cmd/watcher.go:182-217 | ends with no dirty node, exactly the reachable nodes, and New on exactly those not known before |
| Dns.DmDns.CountQuestions | pkg/dns/dns.go:365-383 | every A or AAAA question is counted on the entry of its name |
| Dns.DmDns.LearnOne | pkg/dns/dns.go:402-427 | exactly an answer with an address for a known name is learned; its address keeps its first name, whose entry is credited |
| Dns.DmDns.RecordAnswers | pkg/dns/dns.go:401-429 | the facts learned are exactly those of the answers for names asked so far, in order |
| Dns.DmDns.Run | pkg/dns/dns.go:347-432 | over any interleaving of calls both indexes share entries, the questions counted and the facts learned are exactly those of the run, and the reverse index leads each address to the first name learned for it |
| Dns.DmDns.Accounting | pkg/dns/dns.go:379-425 | the counters of all entries add up to the questions counted and to the facts learned |
| Dns.Serve | pkg/dns/dns.go:347-432 | from an empty table: per name and in total, Count and RCount are the questions and the name-known answers of the run |
| Dns.LearnedIsBacked | pkg/dns/dns.go:401-429 | a fact is learned if and only if an answer of the run carried it for a name asked before |
| DnsExact.RefusedExact | pkg/dns/dns.go:349-363 | refused are exactly requests without a question, and those whose first name has a first label of more than 5 characters and at most one dot |
| DnsExact.AskedExact | pkg/dns/dns.go:365-383 | the question counter of a name is the number of A and AAAA questions for it in requests not refused |
| DnsExact.LearnedExact | pkg/dns/dns.go:401-429 | as many facts are learned as there are A and AAAA answers for names asked before |
| DnsExact.CreditsExact | pkg/dns/dns.go:410-415 | the answer counter of a name is the number of facts about addresses first learned for it |
| Dns.FirstFact | pkg/dns/dns.go:410-414 | the name an address leads to is that of the first fact about it |
| Dns.TotalIsSize | pkg/dns/dns.go:379-425 | a table of multiplicities adds up to the size of the multiset |
| Dns.DmDns.HostByAddr | pkg/dns/dns.go:214-232 | the first name learned for the address, which was asked for; else the address itself |
| Dns.Resolve | pkg/dns/dns.go:214-232 | after a run from an empty table a name is found if and only if an answer of the run carried the address for a name asked before, and it is the first such name |

## Left out

- `nio2`: the same code as `nio` under another package name.
- What a caller does to a message returned by `Recv`, except reading from the buffer the reader shares.
- The closeStream callback of the receive queue, and data races on `Err` inside `Put`: `Put` is one atomic step.
- The order in which Go's select picks among ready cases is arbitrary in the schedule; fairness is not modelled.
- The splice branch of `Copy`, deadlines on connections, flushing, and the reuse of pooled buffers.
- `Buffer.Skip`, `Buffer.Grow`, `WriteVarint`, `ReadByte`: not used by the modelled paths, or one line each.
- `InOutStream` headers, `WriteTo` and `ReadFrom`.
- Frames returned by `Recv` are assumed unchanged by the caller until the next `Recv`, and no `Recv` follows an error.
- The contents of control messages and file descriptors on the Unix socket.
- The step machine of the proxy bounds a read by what the source has, not by the 1 MB copy buffer.
- The finalizer by which Go's garbage collector may close a socket nobody refers to any more, such as one whose route failed to resolve.
- The destination filters and DNS dispatch at the start of `HandleUdp`, route discovery, and traffic counters.
- `NodeWatcher.Path` and the HTTP exchange of the crawler; the neighbour graph is fixed during a crawl.
- `DNSOverTCP`, `AddRecord`, local queries, the upstream exchange, latencies and timestamps.
- HTTP, SOCKS, QUIC, WebRTC, push messaging, key handling, and the command line tools.
