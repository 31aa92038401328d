# EtherSia, modelled in Dafny

EtherSia is an IPv6 stack for small microcontrollers. All its layers work in one 600-byte buffer: a
received packet is parsed, answered and overwritten in place. These files model the parts in which
that is hardest to get right, and prove what they are for.

- `TcpClient.dfy`, `TcpServer.dfy`: the client's state machine and the stateless server, as classes
  over a shared packet buffer. `TcpClientModel.dfy` says what one call of `havePacket()` does;
  `TcpReactions.dfy` proves
  each case of it outright, and what closes a connection; `TcpDelivery.dfy`, `TcpConservation.dfy`,
  `TcpSilence.dfy`, `TcpRtt.dfy` and `TcpEstimate.dfy` prove what follows over whole runs;
  `TcpSession.dfy` composes client and server; `TcpFrame.dfy` connects the segments with their bytes.
- `TftpServer.dfy`: both transfer loops in the shared buffer; `TftpModel.dfy` and
  `TftpNetwork.dfy`: the transfers against a peer that follows RFC 1350.
- `Checksum.dfy`, `Frame.dfy`: the Internet checksum against exact integers and RFC 8200.
- `EtherSia.dfy`, `NodeModel.dfy`, `Icmp6.dfy`, `Udp.dfy`: the buffer, Neighbour Discovery, address
  configuration, ICMPv6 replies and UDP, with two nodes talking to each other.
- `W5100.dfy`: the ring buffers of the Ethernet chip against a queue of frames.
- `IPv6Text.dfy`, `MacText.dfy`, `HexText.dfy`: parsing and printing addresses.
- `Dns.dfy`: the name encoder and the reply walker.

Where the source updates an object or a buffer in place, the model is a class or an array, and each
method is proved against a function of the old state; the properties are then proved of that
function. A network is a set of everything sent so far: whatever is in it may arrive at any later
time, any number of times, or never.

## Where the code differs from what it says

- `havePacket()` is said to have no side effect on the payload. The bytes stay, but the reply it sends
  replaces the data offset and the length, so `payloadLength()` is 0 when it returns true
  (`TcpClient.TCPClient.HavePacket`). Delivered bytes are those located by the header as received.
- A SYN-ACK is recognised by a test for SYN *or* ACK, so a bare ACK connects with a wrong receive
  counter (`TcpLimits.ConnectsOnAnyAck`). An ordinary peer sends one if its SYN-ACK is lost and the
  SYN comes again (`TcpLimits.SynAckOvertaken`). `TcpDelivery` is about the other runs: the segment
  that connects is the peer's SYN, whatever else is in the network.
- The reset for an old connection is sent to a port with its bytes swapped
  (`TcpLimits.ResetReachesPeer`).
- The estimator settles at 8r only from below; from above it rests at 8r + 7
  (`TcpRtt.ReachesLimit`). The timeout is the same.
- It is exact for all samples up to 31 ticks, and for no larger bound: a run of answers after at most
  32 ticks makes the average 0 and the timeout 32 ticks too short (`TcpRtt.LargestSafeSample`,
  `TcpRtt.SamplesOf32Wrap`).
- A file of 65534 full blocks or more cannot be read by TFTP (`TftpNetwork.ReadableSizes`).
- Both text parsers accept ten control characters as digits (`HexText.DigitsAccepted`).
- An error reply to a packet with a length field of 65496 or more quotes next to nothing of it
  (`Icmp6.ErrorReplyQuotes`).
- The sum of length and protocol "cannot carry", says calculateChecksum(); for lengths close to 65536
  it does, and the checksum is then not that of RFC 8200 (`Frame.ChecksumIsRfc8200`).
- fromString() takes any number of groups, of any length, and any number of "::"
  (`IPv6Text.AcceptsExactly`).
- An option of length zero holds up the walk over a router or neighbour advertisement for ever, if
  the walk gets there (`Icmp6.WalkTerminates`).
- A UDP checksum that comes out as 0 is sent so (`Frame.StampIsZero`, `Udp.SomePortSendsZero`).
- A root name in a DNS reply is not stepped over (`Dns.SkipLandsUnlessRoot`).

## Model

| member | source | states |
|---|---|---|
| TcpClient.TCPClient.HavePacket | src/TCPClient.cpp:52-353 | One call refines the step function Call for every record, clock and buffer: new record, segment sent and return value. When it reports data, the bytes are still where they were, but the header that locates them has been replaced by a blank 20-byte one, so payloadLength() is 0 afterwards |
| TcpClient.TCPClient.ProcessArrival | src/TCPClient.cpp:93-143 | Which of the tests on address, protocol, ports and SYN sends the packet to `found`, to the retransmission check, or to `reset` |
| TcpClient.TCPClient.HandleFound | src/TCPClient.cpp:177-299 | The `found` label: RST, the sequence test, the ACK test, then the four states |
| TcpClient.TCPClient.TestAck | src/TCPClient.cpp:197-227 | Only an acknowledgement of exactly everything outstanding advances _localSeqNum; it is an RTT sample unless the segment was repeated |
| TcpClient.TCPClient.UpdateRtt | src/TCPClient.cpp:207-216 | The 8-bit, signed-char estimator with every wrap written out |
| TcpClient.TCPClient.HandleWaitSynAck | src/TCPClient.cpp:232-246 | Connects and acknowledges, or aborts and resets |
| TcpClient.TCPClient.HandleConnected | src/TCPClient.cpp:248-276 | FIN with and without data outstanding, data, and bare acknowledgements |
| TcpClient.TCPClient.CheckForRetransmit | src/TCPClient.cpp:301-345 | Backoff, both caps, the reset on giving up, and what each state repeats |
| TcpClient.TCPClient.SendNoDataReply | src/TCPClient.cpp:288-297 | Exactly one blank segment with the two counters of the connection goes out; the bytes behind the header stay |
| TcpClient.TCPClient.SendReset | src/TCPClient.cpp:146-175 | The reset built from the received header, with the destination port stored in host order; none in answer to a reset |
| TcpClient.TCPClient.FillTCPHeader | src/TCPClient.cpp:355-375 | Ports, sequence numbers and, in a long header, the MSS option; nothing else in the packet body |
| TcpClient.TCPClient.SendInternal | src/TCPClient.cpp:388-405 | The application's bytes go out at _localSeqNum; a retransmission changes neither length, timer nor count |
| TcpClient.TCPClient.Open | src/TCPClient.cpp:18-50 | connect() sends one SYN with the chosen initial number and a fresh record |
| TcpClientModel.RetransmitKeeps | src/TCPClient.cpp:301-345 | The retransmission check never moves a sequence number or a port and sends nothing but a SYN, a FIN-ACK or an RST-ACK with the numbers of this connection, the first two only in their states |
| TcpClient.InBufferIs | src/TCPClient.cpp:93-110 | Only what has been received, from the peer to us, with protocol 6, is looked at as a segment |
| TcpReactions.ResetCloses | src/TCPClient.cpp:178-183 | For every open connection and every RST of its port pair: the next state is DISCONNECTED, abort and nothing else is signalled, nothing is sent or delivered |
| TcpReactions.NextState | src/TCPClient.cpp:177-286 | The next state for every segment of the connection, and exactly when the call times the connection out |
| TcpReactions.Signalled | src/TCPClient.cpp:177-286 | Exactly when abort, connected, close and new data are signalled |
| TcpReactions.SignalledToo | src/TCPClient.cpp:58-70 | Exactly when acknowledged data, a retransmission and ten idle minutes are signalled |
| TcpReactions.Replied | src/TCPClient.cpp:145-175 | What goes out in answer to every segment of the connection, number by number, or that nothing does |
| TcpReactions.NotOurs | src/TCPClient.cpp:98-143 | Packets of others are as if nothing had come, but for those to an old port: these are answered by a reset with its two numbers, unless they are resets |
| TcpReactions.NothingComes | src/TCPClient.cpp:302-345 | Without an arrival, only an expired timer does something, and what it does in each state |
| TcpReactions.ActionCloses | src/TCPClient.cpp:177-345 | One call or send ends a live connection exactly if it is a reset, a failed answer to the SYN, the acknowledgement of our FIN, or the last timeout |
| TcpReactions.WhatClosesARun | src/TCPClient.cpp:177-345 | In any run, the connection is over if and only if one of these four has come, for every initial number and every sequence of calls and sends |
| TcpReactions.ConnectsAfresh | src/TCPClient.cpp:24-48 | connect() sends one SYN from a new port, so that no segment of the connection before is taken for this one |
| TcpReactions.ResendsTheSame | src/TCPClient.cpp:388-403 | Data sent again has the numbers that it had before, and changes nothing in the record |
| TcpConservation.CallMoves | src/TCPClient.cpp:200-227 | In any call, _localSeqNum moves only to an acknowledgement number that covers everything outstanding; only entering LAST_ACK consumes a number; a closed connection stays closed |
| TcpConservation.StepKeepsBalance | src/TCPClient.cpp:255-262 | The balance of sequence numbers is kept by every call and every send |
| TcpConservation.SequenceConservation | src/TCPClient.cpp:200-265 | Over every run: _localSeqNum + _unAckLen equals the initial number + 1 + bytes first sent (+ 1 after LAST_ACK), modulo 2^32; _nrtx <= 8, and <= 5 while waiting for the SYN-ACK |
| TcpConservation.NewlyOutstanding | src/TCPClient.cpp:257-262 | In every run, data just written and a FIN just sent satisfy the premise of the silence schedule |
| TcpDelivery.FoundReceives | src/TCPClient.cpp:177-299 | What any segment can do to the receive counter: nothing, the first number after a connecting segment, or exactly its own length (+ 1 for FIN) when it is the next one |
| TcpDelivery.NextBytes | src/TCPClient.cpp:188-195 | A segment that starts at the expected number carries the next bytes of the stream, for streams shorter than the number space |
| TcpDelivery.ReceiveKeepsInv | src/TCPClient.cpp:177-299 | One call keeps the delivery invariant, whatever arrives |
| TcpDelivery.DeliversAPrefix | src/TCPClient.cpp:185-276 | For every run over a network that loses, repeats and reorders, in which the first acknowledgement of our SYN to arrive is not one that overtook the SYN-ACK: the payloads reported concatenate to a prefix of the peer's stream, to all of it once its FIN is accepted, and each acknowledgement sent for the open connection equals IRS + 1 + bytes delivered (+ 1 after FIN) |
| TcpDelivery.ReportsNewData | src/TCPClient.cpp:347-353 | havePacket() returns true exactly when it has added bytes to what was delivered |
| TcpRtt.MeasureIsExact | src/TCPClient.cpp:207-216 | For a sample of at most 31 ticks the 8-bit code equals the integer estimator and stays within 248, 3..124 and 3..155 |
| TcpRtt.SamplesStayInRange | src/TCPClient.cpp:36-41 | So it does over any sequence of such samples, from the estimate that connect() leaves |
| TcpEstimate.ConnectStartsAt | src/TCPClient.cpp:36-41 | connect() starts the estimator at mean 0, deviation 16 (4 ticks) and a timeout of 3 |
| TcpEstimate.ActionEstimates | src/TCPClient.cpp:206-217 | A call changes the estimate exactly when it takes a sample: everything outstanding acknowledged in order, and sent once only |
| TcpEstimate.EstimateOfARun | src/TCPClient.cpp:36-41 | In every run, the estimate is what its samples make of the one connect() starts with |
| TcpEstimate.ExactInARun | src/TCPClient.cpp:207-217 | In every run from connect() on in which the samples are at most 31 ticks, the estimate equals the integer estimator started at mean 0 and deviation 16, and stays within 248, 3..124 and 3..155 |
| TcpRtt.ReachesLimit | src/TCPClient.cpp:207-216 | A constant sample r drives _sa to its limit, _sv to 3 and _rto to r + 3 in finitely many steps. The limit is 8r from below, and 8r + 7 when the estimate starts above: the right shift rounds down |
| TcpRtt.StaysAtLimit | src/TCPClient.cpp:207-216 | Once there it stays |
| TcpRtt.ConstantSampleSettles | src/TCPClient.cpp:207-216 | From some sample on, for ever, _rto is r + 3 |
| TcpRtt.SamplesOf32Wrap | src/TCPClient.cpp:207-216 | A run the client can meet: answers after 3, 15 and 29 ticks and then after 32 ticks each time, every one no later than the timeout before it, take the 8-bit average to 0 where the integer estimator has 256, and the timeout to 32 ticks less |
| TcpRtt.LargestSafeSample | src/TCPClient.cpp:207-216 | Every sequence of samples up to a bound is computed exactly if and only if the bound is at most 31; the same when only samples no longer than the timeout before them count |
| TcpSilence.SilentCall | src/TCPClient.cpp:79-91 | One silent call: the timer runs down, or the segment is repeated with the next timeout, or the connection is reset |
| TcpSilence.Schedule | src/TCPClient.cpp:302-345 | After any number of silent calls the record is on the retransmission schedule or the connection is over |
| TcpSilence.SilenceEndsTheConnection | src/TCPClient.cpp:302-345 | For any silent run: repetitions so far = deadlines passed, capped; exactly one reset, in the call in which the last timer expires; the next call is DISCONNECTED |
| TcpSilence.Deadlines | src/TCPClient.cpp:306-311 | The schedule in numbers: SYNs at ticks 3, 6, 12, 24, 48 and a reset at 96; otherwise 8 repetitions and a reset at _rto + 237 |
| TcpSilence.SampleIsElapsed | src/TCPClient.cpp:206-217 | What is sampled: an acknowledgement after a silent wait measures the ticks since the segment was sent, at most _rto of them, and nothing once the segment has been repeated |
| TcpServer.TCPServer.HavePacket | src/TCPServer.cpp:8-59 | Which segments are ignored, answered or handed over, and what is answered; a request stays in the buffer with its flags cleared |
| TcpServer.TCPServer.SendInternal | src/TCPServer.cpp:61-95 | The reply is computed from the received header alone: numbers swapped, the received length (at least 1) acknowledged, FIN and PSH on data |
| TcpServer.ReactsTo | src/TCPServer.cpp:22-58 | The whole reaction for every segment: which are ignored, which are requests, and the ports, numbers and flags of every answer |
| TcpSession.AcceptsSynAck | src/TCPClient.cpp:232-240 | A SYN-ACK of our SYN connects, consumes its number and is acknowledged |
| TcpSession.AcceptsFin | src/TCPClient.cpp:255-266 | A FIN that also acknowledges our data is delivered, closes and is answered by FIN-ACK |
| TcpSession.AcceptsLastAck | src/TCPClient.cpp:278-286 | The acknowledgement of our FIN ends the connection without an abort |
| TcpSession.LosslessSession | src/TCPServer.cpp:27-95 | Client against server, for all initial numbers, request and reply lengths and clocks: SYN, SYN-ACK, ACK, request, FIN-reply, FIN-ACK, FIN-ACK, every test passes, the client delivers exactly the server's reply |
| TcpSession.CallReports | src/TCPClient.cpp:248-286 | Data is reported only in CONNECTED for a segment of this connection; if it carries FIN, that is the last report |
| TcpSession.TurnKeepsAtMostOne | src/TCPServer.cpp:27-95 | Every turn of client, application or server keeps the invariant behind AtMostOneReply |
| TcpSession.AtMostOneReply | src/TCPClient.cpp:177-299 | Whatever is lost, repeated or reordered, and whatever the server's application answers each time it is asked, at most one reply is delivered per connection, and it is one of the answers to the request that was sent |
| TcpLimits.ConnectsOnAnyAck | src/TCPClient.cpp:233 | The test for SYN and ACK is an "or": the client connects exactly on an acknowledgement of its SYN; of what a peer sends, exactly its SYN (or a segment at the same number, once the peer has used up all of them) then gives the receive counter, and the ACK that is sent, the number of the peer's first byte |
| TcpLimits.SynAckOvertaken | src/TCPClient.cpp:232-240 | The failing run, for every peer: the SYN-ACK is lost, the SYN goes out again at tick 3, a peer in SYN-RECEIVED answers it with a bare acknowledgement, as section 3.9 of RFC 793 says; the client connects and acknowledges a byte that it has not got |
| TcpLimits.BareAckRefuses | src/TCPClient.cpp:188-195 | From there on the peer's first byte, and all that come with it, are refused and answered with the wrong number |
| TcpLimits.ResetReachesPeer | src/TCPClient.cpp:158 | The reset reaches the peer's port exactly when both bytes of the port are equal, because the port is stored without htons |
| TcpLimits.ResetMissesPort80 | src/TCPClient.cpp:158 | A reset meant for port 80 goes to port 20480 |
| TcpFrame.FinishIs | src/TCPClient.cpp:355-386 | The frame of a segment is valid for every payload length, with or without the MSS option; its header is in place and the data untouched |
| TcpFrame.SegmentReads | src/TCPClient.cpp:407-417 | From a header and data in place, ports, numbers, flags, length and payload are read as they were written |
| TcpFrame.SegmentArrives | src/TCPServer.cpp:76-94 | A prepared segment passes the Ethernet, version and checksum tests of the other node, whatever its buffer held, and decodes to what was sent |
| TcpFrame.SentSegmentArrives | src/Socket.cpp:119-132 | The same for a segment sent with prepareSend() |
| TcpFrame.ReplySegmentArrives | src/TCPClient.cpp:288-297 | The same for a reply, which goes back to the node the packet came from |
| TcpFrame.FillTCPHeader | src/TCPClient.cpp:355-376 | The in-place steps on the bytes: the whole buffer, checksum included, is that of the segment |
| TcpFrame.ViewIsSegment | src/TCPClient.cpp:407-417 | What the decoded packet buffer of the client model shows is the segment in the bytes |
| TcpFrame.SendNoData | src/TCPClient.cpp:294-297 | The client model and the bytes side by side: what the one puts on its wire is the segment in the valid frame that the other sends, and both still show the same |
| TcpFrame.FlagsRoundTrip | src/tcp.h:37-44 | The five tested flags are recovered from the byte they are written as |
| TcpFrame.FlagBytes | src/tcp.h:37-44 | The flag bytes of every kind of segment that is sent, as the control bits of RFC 793 |
| TcpFrame.FlagByteRoundTrip | src/tcp.h:37-44 | A flag byte is recovered from its five flags if and only if URG and the two bits above it are clear |
| TcpFrame.OptionBytes | src/TCPClient.cpp:369-373 | The option that goes out is a maximum segment size of 490, and the data offset says whether it is there |
| TftpServer.TFTPServer.HandleReadRequest | src/TFTPServer.cpp:95-133 | The loop refines ReadRun over everything receivePacket() may leave behind: same exit, and the socket's frames are DATA packets with exactly the file's blocks in that order; it goes on only while fewer than 11 ACKs or timeouts per block have come |
| TftpServer.TFTPServer.WaitForAck | src/TFTPServer.cpp:135-160 | The first ACK decides, by its block number; only silence until the timeout counts as a loss; other packets are skipped |
| TftpServer.TFTPServer.SendData | src/TFTPServer.cpp:102-109 | One frame whose TFTP bytes are the header and the block |
| TftpServer.TFTPServer.HandleWriteRequest | src/TFTPServer.cpp:43-93 | The loop refines WriteRun for every buffer, length field and memory behind the buffer: same exit, same sequence of ACKs and writeBytes() calls, and the socket's frames are those ACKs |
| TftpServer.TFTPServer.ReceiveBlock | src/TFTPServer.cpp:53-91 | One turn, in the shared buffer: first the ACK is built and sent, then writeBytes() gets the data that arrived |
| TftpServer.TFTPServer.SendAck | src/TFTPServer.cpp:162-170 | One frame with the ACK; every byte of the buffer behind its 4 bytes is unchanged |
| TftpServer.PacketIsRead | src/TFTPServer.cpp:57-61 | How an ACK or DATA packet is read, byte by byte, and that no other packet is one |
| TftpModel.PacedStep | src/TFTPServer.cpp:109-125 | One poll keeps at most 11 sends per block and only of blocks below 65535 |
| TftpModel.SendsAreBounded | src/TFTPServer.cpp:100-132 | Over every run: at most 11 sends of any block, blocks 1 to 65534, so at most 11 * 65534 sends in all |
| TftpModel.ReadingEnds | src/TFTPServer.cpp:100-132 | The read loop ends: it is over after 11 polls with an ACK or a timeout for each block of the file, whatever they bring |
| TftpModel.PollReads | src/TFTPServer.cpp:109-131 | One poll of a running read: the right ACK puts the next block on the wire or ends the read; every wrong ACK or timeout puts the same block there once more, or gives up if it was the 11th time; anything else does nothing |
| TftpModel.GivesUpExactly | src/TFTPServer.cpp:116-119 | The server gives up if and only if a block that it has sent 11 times is lost once more |
| TftpModel.BearsLosses | src/TFTPServer.cpp:100-132 | With at most 10 wrong ACKs or timeouts for each block, and anything else in between, the read goes on to its end |
| TftpModel.PollWrites | src/TFTPServer.cpp:53-91 | One poll of a running write: the expected block is acknowledged and stored, an earlier one is acknowledged again, any other changes nothing; exactly when the last block or a timeout ends it |
| TftpNetwork.PollKeepsStep | src/TFTPServer.cpp:95-160 | Server polls keep server and peer within one block of each other |
| TftpNetwork.HearingKeepsStep | src/TFTPServer.cpp:95-133 | So does whatever the peer hears |
| TftpNetwork.DownloadIsFaithful | src/TFTPServer.cpp:95-160 | With an RFC 1350 peer over a lossy, repeating, reordering network: the server is at the peer's last block or one more, the peer holds a prefix of the file, a normal exit means all of it |
| TftpNetwork.ExitDependsOnSize | src/TFTPServer.cpp:101 | Which normal exit is possible depends on the file size alone |
| TftpNetwork.ReadableSizes | src/TFTPServer.cpp:101 | A read can finish if and only if the file has fewer than 65534 full blocks; a longer file ends the loop silently after block 65534 |
| TftpNetwork.DownloadBearsLosses | src/TFTPServer.cpp:95-160 | With a peer of RFC 1350 and at most 10 losses of each block or its ACK, the server ends normally and the peer has the whole file |
| TftpNetwork.PollKeepsSequence | src/TFTPServer.cpp:63-83 | One arrival keeps the stored blocks sequential and every ACK in its place before its store |
| TftpNetwork.UploadIsFaithful | src/TFTPServer.cpp:51-91 | For any order, loss and repetition: writeBytes() gets blocks 1, 2, 3, ... once each with the peer's bytes; every ACK either repeats one for a stored block or is for the block expected then, whose store is the next thing that happens; and a finished transfer has stored the whole file |
| TftpNetwork.StoresWhatArrives | src/TFTPServer.cpp:63-83 | Before any timeout, as many blocks are stored as have arrived in order, and the transfer ends exactly with the last one |
| TftpNetwork.UploadCompletes | src/TFTPServer.cpp:63-83 | Every write in which all blocks arrive in order before a timeout, with anything in between and after, stores the whole file |
| TftpNetwork.WritableSizes | src/TFTPServer.cpp:52-83 | A file can be written if and only if it fits into blocks 1 to 65535, the last of them short |
| Checksum.Chksum | src/util.cpp:103-131 | For every start value and length, odd ones included: the folded exact sum of the big-endian words |
| Checksum.AddCarry | src/util.cpp:114-117 | Add with end-around carry is one's complement addition |
| Checksum.FoldMeans | src/util.cpp:103-131 | The result is the sum modulo 65535, and 0 only for a total of nothing |
| Checksum.ChksumChains | src/IPv6Packet.cpp:142-149 | Chaining over pieces of even length is one pass over the concatenation |
| Checksum.FoldCarry | src/IPv6Packet.cpp:140-142 | A carry that is lost from the sum always changes the result |
| Checksum.WordsAllZero | src/util.cpp:112-127 | The sum is 0 exactly for all-zero bytes |
| Frame.ChecksumIsOfTotal | src/IPv6Packet.cpp:138-152 | The four chained sums are one fold of everything covered, wherever the length field leads |
| Frame.ChecksumIsRfc8200 | src/IPv6Packet.cpp:138-152 | calculateChecksum() is the checksum over the pseudo-header of RFC 8200 section 8.1 and the payload if and only if length and protocol add up to less than 65536, for every length field and all memory behind the buffer |
| Frame.Rfc8200Sum | src/IPv6Packet.cpp:140-149 | What the first 16-bit addition loses of the sum of RFC 8200: nothing, or exactly one carry |
| Frame.OneByteShows | src/IPv6Packet.cpp:27-44 | Changing any one byte of the addresses or the payload changes the checksum, and a valid packet becomes invalid |
| Frame.ValidExactly | src/IPv6Packet.cpp:27-44 | A packet is valid exactly if it is of type 86DD and version 6 and its checksum, its own field included, comes out as 0 |
| Frame.StampVerifies | src/UDPSocket.cpp:65-66 | Storing 0 and then the checksum at any even offset of the payload makes the packet verify, for every payload length |
| Frame.StampIsZero | src/UDPSocket.cpp:65-66 | The stored checksum is 0 exactly when everything it covers adds up to a positive multiple of 65535; nothing is done about it |
| Frame.FitsInMemory | src/IPv6Packet.cpp:27-44 | A packet whose length field stays in the buffer has the same checksum and validity whatever lies behind it |
| Udp.SomePortSendsZero | src/UDPSocket.cpp:49-69 | For every datagram there is a source port with which a checksum of 0 goes out, which in UDP means none |
| EtherSia.EtherSia.CalculateChecksum | src/IPv6Packet.cpp:138-152 | The method over the memory that the length field leads to computes ChecksumOf |
| EtherSia.EtherSia.PacketIsValid | src/IPv6Packet.cpp:27-44 | isValid(): type, version and checksum, for every length field |
| EtherSia.EtherSia.SetChecksum | src/UDPSocket.cpp:65-66 | Changes the two checksum bytes only, as Stamp does |
| EtherSia.EtherSia.ReceivePacket | src/EtherSia.cpp:110-137 | Every frame: dropped, handed over, or handled as ICMPv6 with the reaction that Reacts states; the return value, _bufferContainsReceived, the buffer, what is sent and what is learned |
| EtherSia.EtherSia.PrepareSend | src/EtherSia.cpp:166-181 | The header fields it sets, in the whole buffer |
| EtherSia.EtherSia.PrepareReply | src/EtherSia.cpp:183-203 | The whole new buffer: addresses turned round, source chosen by how the packet was addressed |
| EtherSia.EtherSia.Send | src/EtherSia.cpp:205-212 | Exactly the bytes up to the length field go out, also where it leads behind the buffer |
| NodeModel.SendHeaders | src/EtherSia.cpp:166-181 | The result is an IPv6 packet from this node with the right source, destination and hop limit, payload untouched |
| NodeModel.ReplyHeaders | src/EtherSia.cpp:183-203 | The reply is addressed to the sender with hop limit 64, and type, version, length, protocol and payload stay |
| NodeModel.OwnAddresses | src/EtherSia.cpp:50-63 | Exactly which addresses are ours, byte by byte: the two unicast ones, ff02::1, and the solicited-node addresses of section 2.7.1 of RFC 4291 |
| NodeModel.OwnFrames | src/EtherSia.cpp:92-108 | Exactly which frames are taken: to us or to 33:33, and not from us; and the multicast address of section 7 of RFC 2464 |
| NodeModel.ValidInAnyBuffer | src/IPv6Packet.cpp:27-44 | A frame verifies in one buffer if and only if it does in any other that receives it |
| NodeModel.SameHeaders | src/EtherSia.cpp:110-112 | A received frame reads as it was sent, byte for byte |
| Icmp6.FinishIsValid | src/icmp6.cpp:122-131 | Every ICMPv6 packet finished by icmp6PacketSend() verifies |
| Icmp6.SolicitationArrives | src/icmp6.cpp:81-98 | A's solicitation passes B's Ethernet, checksum and multicast tests and asks for an address of B |
| Icmp6.AdvertisementArrives | src/icmp6.cpp:41-68 | B's answer passes A's tests and icmp6ProcessNA() gives B's MAC, whatever lies behind the buffer |
| Icmp6.NeighbourDiscovery | src/icmp6.cpp:41-98 | The whole exchange, for all distinct MACs, all buffers and every address of B: B handles A's solicitation, A is handed B's answer, both with hop limit 255, and learns exactly B's MAC |
| Icmp6.SolicitationIs | src/icmp6.cpp:81-98 | Every field of a solicitation, in a packet that verifies |
| Icmp6.AdvertisementIs | src/icmp6.cpp:41-68 | Every field of an advertisement, in a packet that verifies |
| Icmp6.FirstTargetLinkIs | src/icmp6.cpp:203-214 | The address in the first option of type 2, or the Ethernet source if there is none |
| Icmp6.LearnsLastLinkAndDns | src/icmp6.cpp:166-191 | Of any option list, the last link address and the last DNS server are kept |
| Icmp6.WalkTerminates | src/icmp6.cpp:166-190 | For all bytes, the walk of icmp6ProcessRA() or icmp6ProcessNA() is over after some number of turns if and only if it meets no option of length zero on its way; at one it stays for ever |
| Icmp6.WellFormedIsSeen | src/icmp6.cpp:166-190 | On every well-formed option area of RFC 4861 section 4.6 both walks end, and learn what the parsed options say |
| Icmp6.LearnsFirstPrefix | src/icmp6.cpp:133-154 | An unset address is set from the first qualifying prefix, and by nothing else; a set one is kept |
| Icmp6.QualifiesExactly | src/icmp6.cpp:135-146 | A prefix counts exactly with the on-link and the autonomous flag and 64 bits |
| Icmp6.GlobalAddressIsSetOnce | src/icmp6.cpp:148-152 | Over any sequence of advertisements the address is set at most once and never changes afterwards |
| Icmp6.GlobalAddressBytes | src/IPv6Address.cpp:53-63 | The address learned over any run of advertisements, byte by byte: the 64 bits of the prefix, the MAC with ff fe in the middle, and the universal/local bit, and no other, inverted |
| Icmp6.EchoReplyEchoes | src/icmp6.cpp:70-79 | Identifier, sequence number and data come back unchanged, in a valid packet to the sender, for every length field |
| Icmp6.ErrorReplyQuotes | src/icmp6.cpp:7-39 | The overlapping move and the headers written over it leave min(40 + length, 538) bytes of the offending packet unchanged, in a valid frame of at most 600 bytes back to its sender; for length fields from 65496 on the 16-bit sum wraps and length - 65496 bytes are left |
| EtherSia.EtherSia.MoveUp | src/icmp6.cpp:18-22 | memmove() towards the end over an overlapping area copies the old bytes |
| EtherSia.EtherSia.Icmp6ErrorReply | src/icmp6.cpp:7-39 | The in-place steps produce ErrorReply and send it |
| EtherSia.EtherSia.Icmp6NSReply | src/icmp6.cpp:41-68 | Answers exactly solicitations for a unicast address of the node |
| EtherSia.EtherSia.Icmp6EchoReply | src/icmp6.cpp:70-79 | The in-place steps produce EchoReply and send it |
| EtherSia.EtherSia.Icmp6SendNS | src/icmp6.cpp:81-98 | The in-place steps produce the solicitation and send it |
| EtherSia.EtherSia.Icmp6PacketSend | src/icmp6.cpp:122-131 | Protocol, checksum and send |
| EtherSia.EtherSia.Icmp6ProcessPrefix | src/icmp6.cpp:133-154 | Flags, length 64 and an unset address, or nothing changes; the address set is the one of GlobalAddressBytes |
| EtherSia.EtherSia.Icmp6ProcessOption | src/icmp6.cpp:167-186 | One option, read at its fixed offsets, whatever its length byte says |
| EtherSia.EtherSia.Icmp6ProcessRA | src/icmp6.cpp:156-191 | For all bytes in and behind the buffer and every length field, as a signed 16-bit count, on which the byte walk ends: the fold over the options it meets |
| EtherSia.EtherSia.Icmp6ProcessNA | src/icmp6.cpp:193-215 | An answer exactly for the expected target; for all bytes on which the walk ends, the first target link address it meets, or the Ethernet source |
| EtherSia.EtherSia.Icmp6ProcessPacket | src/icmp6.cpp:217-243 | Which types are handled, for which destinations, and what each does to the buffer, to _bufferContainsReceived, to what is known and to the wire |
| Icmp6.HandlesExactly | src/icmp6.cpp:217-243 | Solicitations, echo requests and router advertisements for one of our addresses are handled, and no other packet; a solicitation is answered exactly for a unicast address of ours |
| Icmp6.LearnsFromRoutersOnly | src/icmp6.cpp:162-164 | Nothing is learned but from a router advertisement with automatic configuration on, and that sends nothing |
| Udp.UDPSocket.HavePacket | src/UDPSocket.cpp:12-47 | True exactly for a received datagram that passes all five tests |
| Udp.UDPSocket.SendInternal | src/UDPSocket.cpp:49-69 | The whole buffer after the in-place steps, for replies and for new datagrams, and the frame sent |
| Udp.UDPSocket.Send | src/Socket.cpp:119-132 | send(length, false): destinations, headers and the frame sent |
| Udp.UDPSocket.SendReply | src/Socket.cpp:138-140 | sendReply(length): headers turned round and the frame sent |
| Udp.FillIs | src/UDPSocket.cpp:49-69 | The finished datagram is valid, its lengths agree, ports are set and the payload is untouched |
| Udp.SentIs | src/Socket.cpp:119-132 | The same for a datagram sent to the remote address |
| Udp.FilledArrives | src/UDPSocket.cpp:12-47 | A datagram is taken by exactly the nodes and sockets that it is for: port, address, sender's port and sender's address, in both directions |
| Udp.DatagramArrives | src/UDPSocket.cpp:12-47 | Sent to another node, it passes that node's tests and its socket's, with the payload that was sent |
| Udp.ReplyArrives | src/UDPSocket.cpp:59-61 | A reply passes the tests of the node, address and port that the packet came from |
| W5100.Wizchip.ReadFrame | src/w5100.cpp:254-285 | Against a queue of frames: returns the first one whole, or drops it if it is larger than the buffer, and the rest of the queue is intact, with whatever arrives between its two commands behind it |
| W5100.Wizchip.ReadBody | src/w5100.cpp:270-281 | The frame is fetched or skipped, and what is behind it is ready to be read |
| W5100.Wizchip.ReadHead | src/w5100.cpp:260-268 | The 2-byte length is read across the ring end and leaves the read pointer at the frame |
| W5100.Wizchip.RecvData | src/w5100.cpp:156-186 | The next bytes of the ring in order, split at the ring end or not; the pointer wraps at 16 bits |
| W5100.Wizchip.RecvIgnore | src/w5100.cpp:188-195 | Skips exactly that many bytes |
| W5100.Wizchip.SendData | src/w5100.cpp:125-154 | Byte k goes to ring cell (WR + k) mod 8192, and no other cell of the memory changes |
| W5100.Wizchip.ReadBuf | src/w5100.cpp:56-62 | Copies consecutive cells, nothing else |
| W5100.Wizchip.WriteBuf | src/w5100.cpp:80-86 | Writes consecutive cells, nothing else |
| W5100.CellAdvances | src/w5100.h:96-99 | Masking a free-running pointer stays consistent across its wrap, as the ring size divides 65536 |
| W5100.RingsApart | src/w5100.h:92-93 | Every cell of the two windows stays in its own 8 KiB, so that sending never touches what has been received |
| W5100.Play | src/w5100.cpp:254-285 | For any interleaving of arrivals and reads, arrivals in the middle of a read included, the chip and the driver return what the plain queue returns |
| W5100.FramesComeInOrder | src/w5100.cpp:254-285 | At any moment, frames returned plus frames queued are the frames that arrived, in order, minus those larger than bufsize |
| IPv6Text.IPv6Address.FromString | src/IPv6Address.cpp:131-183 | On every non-empty C string the two loops stay within the string and the 16 bytes, and compute Parse |
| IPv6Text.IPv6Address.FindDoubleColon | src/IPv6Address.cpp:139-152 | Step 1: the position for the words behind "::", for every string |
| IPv6Text.IPv6Address.Character | src/IPv6Address.cpp:155-179 | One turn of step 2: store a word, shift in a digit, or fail |
| IPv6Text.ScanCompressed | src/IPv6Address.cpp:139-152 | On every text with "::", the count is where the groups behind it must start |
| IPv6Text.ParsesFull | src/IPv6Address.cpp:131-183 | Eight groups give their words |
| IPv6Text.ParsesCompressed | src/IPv6Address.cpp:131-183 | "::" anywhere, at the start, in the middle, at the end or alone, stands for the missing zeros |
| IPv6Text.ParsesWhatItDenotes | src/IPv6Address.cpp:131-183 | Every text of RFC 4291 section 2.2, forms 1 and 2, is accepted and gives the address it denotes |
| IPv6Text.AcceptsExactly | src/IPv6Address.cpp:155-182 | A string is accepted if and only if every character that step 2 gets to, before the string or the address is full, is a digit or a colon; in particular every string of these |
| IPv6Text.Print | src/IPv6Address.cpp:197-204 | The text printed, byte by byte |
| IPv6Text.PrintsFullForm | src/IPv6Address.cpp:197-204 | What is printed is a text of form 1 with eight groups of four digits |
| IPv6Text.PrintRoundTrip | src/IPv6Address.cpp:131-204 | fromString(print(a)) = a for every address |
| MacText.MACAddress.FromString | src/MACAddress.cpp:72-101 | Succeeds exactly when all 17 characters pass, and has then written the six bytes; otherwise it stops at the first that does not, and which bytes have been overwritten by then |
| MacText.MACAddress.Print | src/MACAddress.cpp:108-115 | The text printed |
| MacText.PassesExactly | src/MACAddress.cpp:76-97 | Which characters pass at each place: colons and dashes between the bytes, digits elsewhere |
| MacText.ShownIsRead | src/MACAddress.cpp:72-115 | fromString() reads what print() writes as the same address |
| HexText.DigitsAccepted | src/util.cpp:5-16 | asciiToHex() accepts exactly the hexadecimal digits and the control characters 0x10 to 0x19, which setting bit 5 turns into digits |
| HexText.HexCharIs | src/util.cpp:28-41 | Digits are printed as 0 to 9 and a to f |
| Dns.EncodeName | src/dns.cpp:5-29 | Writes the encoding of the name in place, two bytes more than its text, and nothing else; every host name, empty labels included |
| Dns.WriteLabel | src/dns.cpp:12-22 | One label, its length byte filled in behind it, modulo 256 |
| Dns.EncodeLength | src/dns.cpp:5-29 | The encoding is two bytes longer than the text |
| Dns.EncodesLabels | src/dns.cpp:5-29 | For non-empty labels of at most 63 bytes, the encoding is the plain form of RFC 1035 section 4.1.4 |
| Dns.DnsMakeRequest | src/dns.cpp:31-55 | The request is one AAAA question, 18 bytes longer than the name, and the rest of the buffer is untouched |
| Dns.RequestIsAQuestion | src/dns.cpp:31-55 | For a name of non-empty labels the request is a well-formed message of RFC 1035 section 4.1 with exactly one IN/AAAA question for these labels |
| Dns.SkipOverName | src/dns.cpp:57-78 | The pointer loop computes Skip |
| Dns.SkipLands | src/dns.cpp:57-78 | Every name with at least one label or a pointer, plain, compressed or part-compressed, is stepped over exactly |
| Dns.SkipLandsUnlessRoot | src/dns.cpp:57-78 | Of all names, only the root name by itself is not stepped over |
| Dns.DnsProcessReply | src/dns.cpp:81-139 | On every payload, well-formed or not, the walk computes Process |
| Dns.QuestionSection | src/dns.cpp:99-110 | Where the questions end, or that they run past the payload |
| Dns.AnswerSection | src/dns.cpp:112-138 | The first matching answer, or none |
| Dns.WalksQuestions | src/dns.cpp:99-110 | Well-formed questions are stepped over exactly, or refused if they do not all belong to the payload |
| Dns.WalksRecord | src/dns.cpp:112-134 | A well-formed record is the answer, or stepped over exactly, or refused if it does not belong to the payload |
| Dns.WalksRecords | src/dns.cpp:112-138 | Over well-formed records the walk finds the first IN/AAAA record with 16 bytes, if all records before it belong to the payload |
| Dns.ReplyIsWalked | src/dns.cpp:81-139 | For every well-formed message, every request id and every payload length, whatever follows in memory: what is found, and when nothing is: another id, an error code, or questions or earlier records that lead out of the payload |
| Dns.ReplyIsUnderstood | src/dns.cpp:81-139 | When all of the message belongs to the payload: the data of the first IN/AAAA answer with 16 bytes, or NULL if there is none; NULL for another id or an error code |

## Left out

- SPI transfers, register polling and chip reset, the ENC28J60 and W5500 drivers, and the Linux and dummy
  sockets: input and output. A W5100 is its memory and four pointers; `wizchip_sw_reset` and waiting for
  free transmit space are not modelled.
- `millis()` and `random()` are inputs: a flag that a tick or a timeout has passed, any number.
- `HTTPServer`, `Syslog`, printing through `Socket`, hex dumps and byte-order macros: they would add only easy members.
- The merge conflict left in src/MACAddress.cpp:56-69: both functions are taken as declared in the header;
  `fromBytes` needs no property.
- `rejectPacket` and `tcpSendRSTReply`: the choice between three replies; the ICMPv6 error replies it makes are modelled.
- The retry loops of `lookupHostname`, `discoverNeighbour` and `icmp6AutoConfigure`, and router solicitations.
- `handleRequest`, `openFile` and `sendError` of the TFTP server.
- Addresses in the TCP client model: a packet is between the two peers or it is not, and the address chosen by
  `prepareSend` before the destination is set is not followed. The statistics counters, the window and the
  urgent pointer are not part of the record.
- TcpClient.TCPClient.HavePacket: options between a header of less than 20 bytes and its data are not located; a
  header that claims to be shorter than 20 bytes, or longer than the packet, delivers no bytes here.
- TcpConservation.SequenceConservation: covers an application that sends new data only when nothing is outstanding,
  because every segment goes out at `_localSeqNum`.
- TcpSilence.SilenceEndsTheConnection: speaks of silent periods only; when segments keep calls from reaching the
  retransmission check, the 8-bit timer can pass 0 and wrap.
- TcpSession.AtMostOneReply: one request per connection, since the server closes with its reply. Earlier
  connections between the same two ports are not in the network.
- EtherSia.EtherSia.ReceivePacket: the walk over a router advertisement must end, as `Icmp6.WalkTerminates` says exactly
  when it does; a call that does not return has no result to state.
- TcpDelivery.DeliversAPrefix: runs in which another acknowledgement of our SYN overtakes the peer's SYN-ACK are left out,
  as the property fails there (`TcpLimits.SynAckOvertaken`); which runs these are is a condition on the arriving segment.
- TftpServer.TFTPServer.HandleWriteRequest: `receivePacket()` leaves any buffer, any memory behind it, any global address and
  any frames of its own on the wire; the MAC and link-local addresses of the node stay.
- TftpNetwork.UploadIsFaithful: files that fit into blocks 1 to 65535; the block counter wraps after that.
- IPv6Text.IPv6Address.FromString: the empty string is excluded, because the first loop starts at the second
  character. Dotted IPv4 suffixes are not part of the grammar, as the code has none. What address an accepted text outside
  the grammar gives is stated by `Parse` alone.
- Dns.DnsProcessReply: memory behind the payload reads as zero, and section counts are taken from their low byte, as
  the code does, so `Dns.ReplyIsUnderstood` is about counts up to 255.
- Dns.EncodesLabels: a label of more than 255 bytes wraps its length byte, which `Dns.WriteLabel` states.
- W5100.Wizchip.SendData: at most 8192 bytes at a time.
