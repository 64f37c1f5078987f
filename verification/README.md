# NetReplay: a verified model of the data path

NetReplay records network traffic into a session file and plays it back. This project models the
path a packet takes through it, from TCP segment bytes to a stored session and back to frames on
the wire, and proves what each stage keeps. `dafny verify dfyconfig.toml` checks everything.

| files | what they model |
|---|---|
| `Reassembly`, `ReassemblyIdeal`, `ReassemblyTheorems`, `ReassemblyFlush`, `ReassemblyLedger` | one direction of a TCP connection as a machine over 32-bit sequence numbers (serial arithmetic, section 3.2 of RFC 1982), an unbounded machine it simulates, what whole runs and their flush deliver, and the books of its counters |
| `Framing`, `TlsStream`, `HelloCodec`, `CutHellos`, `Http2Stream`, `Conversation` | incremental TLS (section 5.1 of RFC 8446) and HTTP/2 (sections 3.5 and 4.1 of RFC 7540) framers over reassembled bytes, the hello reader against written hellos, whole or cut short, and the analysis of both directions |
| `Checksum`, `Remap`, `RemapTheorems`, `RemapInverse`, `RemapFragments`, `Validate`, `FrameCodec`, `Addresses`, `Sanitize`, `SanitizeOrder` | one's-complement checksums (RFC 1071), rewriting frames in place, mapping back, what happens to fragments, validation, frames written field by field, and sanitizing a session |
| `DisplayFilter`, `DisplayFilterTheorems`, `FilterMeaning`, `FilterTexts` | the display-filter language: tokenizer, recursive-descent parser, grammar, printer, evaluation, combined texts |
| `FlowTracker`, `Storage`, `Capture` | flow tracking, the batched session database, and the capture loop with failures anywhere |
| `Timing`, `PacketQuery`, `ReplayOut`, `ReplayTheorems` | replay schedules, keyset pages, the replay loop, and capture followed by replay |
| `EventGraph`, `RecordIterator`, `Transcript`, `MockHello`, `TlsPacket`, `HelloTheorems`, `Pcapng` | event ancestry, the record walk and recovery of the TLS handshake transcript, building and reading a ClientHello, pcapng files |
| `Bytes`, `Lists`, `Packets`, `Wrappers` | shared byte strings, Python list operations, the parsed packet, `Option` and `Result` |

Objects that the program updates in place are classes or arrays; each of their methods is proved
equal to a function of the old state, and the laws are proved about those functions. What the
environment does is nondeterministic (a stop request, where a step raises) or a parameter (which
capture steps raise, which commits the database refuses).

Where the code and its documentation or intent differ, the model follows the code, and a theorem says
exactly when they agree:

- Reassembly promises that data below a hole is kept. The overlap branch does not drain the buffer,
  so a waiting segment can become stale and its tail be skipped inside a later gap
  (`ReceivedBytesCanBeLost`); `NothingIsLostIff`, `LosesByteIff` and `StaleOnlyByOverlap` say exactly when.
- `Conversation.flush` does not hand the flushed bytes to the stream analysers. `FlushBypassesAnalysis`
  says for which states before the call that loses something, `FlushedBytesAreNotAnalyzed` gives a run.
- The ServerHello reader takes the bytes at offset 34 for the cipher suite, where the session id's length
  stands, so it reports the suite of almost no message (`ServerSuiteReadsBackIff`, `ServerSuiteIsMisread`).
- `flow_key` is documented as direction-independent; with exactly one known, non-zero port it is not
  (`KeyIgnoresDirectionIff`, `KeyDependsOnDirection`).
- A recomputed UDP checksum of zero is stored as zero, which the next rewrite reads as "disabled", so
  mapping back does not restore such a frame. `RemapRoundTrip` gives the condition on the frame and the
  configuration before any call, `UdpChecksumCanBeLost` a frame.
- The module text of `remap.py` says that fragments keep their transport checksum. The code recomputes
  the length and checksum of first fragments (`FirstFragmentIsRecomputed`, `FirstUdpFragmentIsDamaged`)
  and overwrites two bytes of later ones that read like a mapped port (`LaterFragmentIsOverwritten`);
  `TransportPartKeptIff` says exactly which frames keep every byte behind their IPv4 header.
- A frame whose transport part needs more than 16 bits of length, such as a segmentation-offload frame,
  makes the remapper raise (`RemapFailsIff`, `OffloadedFrameFails`); a validated frame never does
  (`AcceptedStaysAccepted`).
- Sanitizing promises that no original identifier leaks. A header address survives exactly in frames whose
  IPv4 header is cut short or malformed, or when it is its own pseudonym (`HeaderStaysIff`, `CutOptionsLeak`);
  with addresses redacted, a session with any endpoint that is not IPv4 is refused (`SanitizeSession`).
- Of a ClientHello with several server_name extensions the packet parser reports the first name, the stream
  parser the last extension's (`ParsersAgreeIff`, `ParsersCanDisagree`).
- The empty display filter is documented to match everything; a row with neither a protocol nor an
  event type does not match (`EmptyFilterMatchesIff`, `EmptyFilterSkipsARow`). The packet, flow and event
  rows of the session route always have one of the two; the stream rows of `database.py` need not.
- `!=` is not the negation of `==` on a row without the attribute, nor on `ip` and `port` when one of two
  values matches (`NotEqualNegatesEqualIff`, `BothHoldOnARow`).
- Story mode caps after scaling in the replay loop and before scaling in the planner
  (`StoryFollowsScheduleIff`).
- The transcript order used to verify Finished messages restores full TLS 1.2 handshakes and plain
  TLS 1.3 ones, but not resumed, client-authenticated or retried ones (`TranscriptRecoveredIff`).
- With a repeated event id the "acyclic" event graph can hold an event that is its own ancestor
  (`RepeatedIdMakesCycle`); `AddMakesCycleIff` says before the call which events close a cycle.
- A commit the database refuses leaves its batch closed with the writes pending; the final clean-up then
  commits them instead of rolling them back, so a capture can end with more than the last good batch
  (`Run` says when, `RefusedCommitOutlivesItsBatch` shows a capture of one packet).

## Model

| member | source | states |
|---|---|---|
| Reassembly.TcpStream.Feed | netreplay/core/flows/reassembly.py:142-197 | one segment moves the whole state and returns the output that the step function gives; all later laws are about that function |
| Reassembly.TcpStream.Place | netreplay/core/flows/reassembly.py:166-191 | the three-way branch on where a segment starts: retransmission, overlap, ahead of the hole, or in place |
| Reassembly.TcpStream.DrainInto | netreplay/core/flows/reassembly.py:234-272 | draining sorts by distance from the position, waits for a second segment before declaring a gap, and emits or keeps each buffered segment |
| Reassembly.TcpStream.Flush | netreplay/core/flows/reassembly.py:199-230 | flushing empties the buffer, declaring each hole and reporting the last |
| ReassemblyIdeal.SerialOrder | netreplay/core/flows/reassembly.py:30-47 | for positions less than 2^31 apart, the 32-bit comparisons and differences are those of the unbounded positions, wherever the numbers wrap |
| ReassemblyIdeal.OppositeNumbers | netreplay/core/flows/reassembly.py:30-43 | numbers exactly 2^31 apart come both before and after each other, all other unequal ones in one way only |
| ReassemblyIdeal.FeedMirrors | netreplay/core/flows/reassembly.py:142-272 | for segments within 2^31 of the position, and of the waiting segment unless they are pure retransmissions, one step of the 32-bit machine delivers the bytes and finding of the unbounded machine and their states stay in correspondence |
| ReassemblyIdeal.RunMirrors | netreplay/core/flows/reassembly.py:142-272 | so do whole runs: same bytes, same recorded issues |
| ReassemblyIdeal.ReceiveIsSound | netreplay/core/flows/reassembly.py:142-272 | when segments are slices of one source, a call returns exactly source[lo, new position), lo being the old position or the end of the gap it reports |
| ReassemblyTheorems.RunDeliversSource | netreplay/core/flows/reassembly.py:142-272 | over every run the output is the source from start to final position with exactly the declared gaps cut out |
| ReassemblyTheorems.GapDeclaredIff | netreplay/core/flows/reassembly.py:183-191 | a gap is declared if and only if a segment comes early while another waits that is not next |
| ReassemblyTheorems.LosesByteIff | netreplay/core/flows/reassembly.py:175-186 | a received byte is lost if and only if a segment comes early while a stale one waits |
| ReassemblyTheorems.NothingIsLostIff | netreplay/core/flows/reassembly.py:142-272 | over every run, every byte received before the position passed it is output or still waits if and only if no segment ever came early while a stale one waited |
| ReassemblyTheorems.StaleOnlyByOverlap | netreplay/core/flows/reassembly.py:166-182 | a waiting segment becomes stale if and only if an overlapping segment ends inside it |
| ReassemblyTheorems.ReceivedBytesCanBeLost | netreplay/core/flows/reassembly.py:175-186 | a run of four segments whose received bytes 6 and 7 are skipped as part of a gap |
| ReassemblyTheorems.LocalReorderingIsLossless | netreplay/core/flows/reassembly.py:166-197 | from any initial sequence number, a stream cut anyhow, with disjoint adjacent swaps and re-sends of delivered ranges anywhere, is output whole, without gaps and with an empty buffer |
| ReassemblyTheorems.PlansAreOrderly | netreplay/core/flows/reassembly.py:166-197 | every plan of deliveries, adjacent swaps with or without re-sends between their halves, and re-sends, over any cut of the source, is such a run |
| ReassemblyTheorems.StartedRunMirrors | netreplay/core/flows/reassembly.py:89-101 | a run from the fresh machine corresponds to the unbounded run from offset zero |
| ReassemblyFlush.FlushMirrors | netreplay/core/flows/reassembly.py:199-230 | the 32-bit flush emits what the unbounded one does, empties the buffer and reports the same hole |
| ReassemblyFlush.ReleaseIsSound | netreplay/core/flows/reassembly.py:199-230 | a flush emits exactly the source between the end of the gap it declares and the new position |
| ReassemblyFlush.FlushCompletesTheRun | netreplay/core/flows/reassembly.py:142-272 | feeding slices of one source from any sequence number and then flushing outputs the source up to the last position with exactly the declared gaps cut out, and nothing waits |
| ReassemblyLedger.BooksBalance | netreplay/core/flows/reassembly.py:142-272 | for every sequence of feed and flush calls, position = first sequence number + bytes written + gap lengths modulo 2^32, at most one segment waits between calls, and the counters count the recorded issues |
| ReassemblyLedger.FeedKeepsBooks | netreplay/core/flows/reassembly.py:142-197 | one feed keeps that balance and counts exactly the bytes it returned |
| ReassemblyLedger.FlushKeepsBooks | netreplay/core/flows/reassembly.py:199-230 | so does a flush, although it records one issue for several holes |
| ReassemblyLedger.SegmentsAreCounted | netreplay/core/flows/reassembly.py:142-161 | over every sequence of calls exactly the feeds with data are counted as segments, any of them makes the stream synchronised, and the base, unless given, is the first feed's number |
| Framing.ExtractTwice | netreplay/core/protocols/streams.py:156-180 | for any prefix-stable item reader, feeding a then b emits and leaves what feeding a+b does |
| Framing.ExtractionIsExact | netreplay/core/protocols/streams.py:156-180 | re-encoding the items found and appending the leftover gives back the input |
| TlsStream.TlsStreamParser.Feed | netreplay/core/protocols/streams.py:156-180 | a feed emits the decoded whole records of buffer and data, keeps the rest, and appends to the record list |
| TlsStream.TlsCutDoesNotMatter | netreplay/core/protocols/streams.py:156-180 | on every input, garbage included, the records found do not depend on how the bytes were cut |
| TlsStream.TlsRecordsComeBack | netreplay/core/protocols/streams.py:156-180 | serialised records come back one for one, whatever follows |
| TlsStream.TlsFramingIsExact | netreplay/core/protocols/streams.py:156-180 | nothing is invented or dropped: records found plus leftover are the input |
| TlsStream.ReadClientHello | netreplay/core/protocols/streams.py:208-253 | the hello reader with its early exits: cipher suites, name, protocols and versions of a body |
| TlsStream.ReadServerName | netreplay/core/protocols/streams.py:277-292 | the first host name of a server_name extension |
| TlsStream.ReadProtocols | netreplay/core/protocols/streams.py:295-309 | the protocol names of an ALPN extension |
| HelloCodec.WrittenHelloReadsBack | netreplay/core/protocols/streams.py:208-253 | the reader on any written hello: its cipher suites, and of its extensions exactly what the known ones say, whatever the session id, compression methods and other extensions |
| HelloCodec.LastExtensionDecides | netreplay/core/protocols/streams.py:208-253 | of any extension list, in any order and with repetitions, the last of each known kind decides its field |
| HelloCodec.HelloFieldsReadBack | netreplay/core/protocols/streams.py:208-328 | name, protocols and versions, written in any order among any other extensions, read back as written |
| HelloCodec.Tls13IsAnnouncedIff | netreplay/core/protocols/streams.py:184-206 | whatever else a client hello carries, its record is reported as TLS 1.3 if and only if its last versions extension lists version 1.3 |
| HelloCodec.ServerNameReadsBack | netreplay/core/protocols/streams.py:277-292 | of any list of name entries the first host name is found, or none |
| HelloCodec.ProtocolsReadBack | netreplay/core/protocols/streams.py:295-309 | every list of protocol names reads back |
| HelloCodec.VersionsReadBack | netreplay/core/protocols/streams.py:312-328 | every list of versions behind its length byte reads back |
| HelloCodec.ServerSuiteReadsBackIff | netreplay/core/protocols/streams.py:184-267 | a ServerHello's record is reported as that message with a cipher suite and nothing else; the suite is the message's if and only if its two bytes equal the session id's length and the byte behind it |
| HelloCodec.ServerSuiteIsMisread | netreplay/core/protocols/streams.py:255-267 | a ServerHello choosing suite 0x1301 without a session id is reported as suite 0x0013 |
| HelloCodec.ServerSuiteWithoutSession | netreplay/core/protocols/streams.py:255-267 | without a session id only the null suite is reported as it is |
| CutHellos.CutHelloReads | netreplay/core/protocols/streams.py:208-253 | a written hello cut short anywhere: nothing is read before its cipher suites are there, and only these before its last byte is |
| CutHellos.CutServerHelloReads | netreplay/core/protocols/streams.py:255-267 | a ServerHello body of 35 bytes gives its last one as the suite, a shorter one nothing |
| CutHellos.ClaimedNamesReadBack | netreplay/core/protocols/streams.py:277-292 | of a server_name list that claims n bytes, right or wrong, the first host among the entries that start in these is found |
| CutHellos.ClaimedProtocolsReadBack | netreplay/core/protocols/streams.py:295-309 | of a protocol list that claims n bytes the names that start in these are read |
| CutHellos.CutNameReadsBack | netreplay/core/protocols/streams.py:277-292 | a host name that claims more bytes than there are is read as far as it goes |
| CutHellos.CutProtocolReadsBack | netreplay/core/protocols/streams.py:295-309 | so is a protocol name |
| CutHellos.BareVersionsReadBack | netreplay/core/protocols/streams.py:312-328 | versions without a length byte read back unless their first byte looks like one |
| CutHellos.RecordIsReadIff | netreplay/core/protocols/streams.py:156-180 | a record is read if and only if it has one of the five types and all the bytes its length says |
| CutHellos.OtherMessagesAreNamed | netreplay/core/protocols/streams.py:184-206 | a handshake message other than the hellos is named and nothing else is said of it |
| CutHellos.OtherRecordsAreTyped | netreplay/core/protocols/streams.py:184-206 | of any other record, or one without a whole message header, only type and version are reported |
| Http2Stream.Http2Parser.Feed | netreplay/core/protocols/streams.py:445-474 | a feed checks the preface once, emits whole frames and keeps the rest |
| Http2Stream.Http2CutDoesNotMatter | netreplay/core/protocols/streams.py:445-474 | feeding a then b, preface included, is feeding a+b, on every input |
| Http2Stream.Http2FramesComeBack | netreplay/core/protocols/streams.py:445-474 | after the preface serialised frames come back one for one, whatever follows |
| Http2Stream.ReservedBitIsIgnored | netreplay/core/protocols/streams.py:456-460 | a frame is reported with its stream id whether or not the reserved bit is set |
| Http2Stream.FramesReadOnlyEncodings | netreplay/core/protocols/streams.py:455-473 | whatever is read as a frame is an encoding of that frame |
| Conversation.Conversation.Feed | netreplay/core/flows/conversation.py:72-95 | a packet goes to the stream of its direction and the bytes it released are kept for analysis; an empty payload changes nothing |
| Conversation.RepliesAreTheResponders | netreplay/core/flows/conversation.py:66-70 | in a flow named after its first packet replies count as the responder's, and the initiator's own packets only when both endpoints are the same |
| Conversation.Conversation.AnalyzeStreams | netreplay/core/flows/conversation.py:100-122 | the analysers' items for the client bytes, then for the server bytes |
| Conversation.EachSideIsFeedAll | netreplay/core/flows/conversation.py:72-95 | whatever else the packets hold, the client's bytes are what the client's own segments deliver in order, and likewise the server's |
| Conversation.RecordsReachTheAnalysis | netreplay/core/flows/conversation.py:72-122 | end to end: client TLS records cut, reordered, re-sent and mixed with server packets in any allowed way give exactly one client item per record, in order, and everything after is about the server |
| Conversation.BothSidesReachTheAnalysis | netreplay/core/flows/conversation.py:72-122 | when both directions carry their own records, cut, reordered and re-sent, the analysis is exactly one client item per client record and then one server item per server record |
| Conversation.RecordsAreAnalyzed | netreplay/core/protocols/streams.py:480-502 | a direction holding a list of records that starts with a handshake is read as those records and nothing else |
| Conversation.HandshakeIsNotHttp | netreplay/core/protocols/streams.py:489-502 | bytes that start a handshake record are taken for neither HTTP/2 nor HTTP/1 |
| Conversation.FramesAreAnalyzed | netreplay/core/protocols/streams.py:480-502 | a direction holding the HTTP/2 preface and a list of frames is read as those frames and nothing else |
| Conversation.StartLineDecides | netreplay/core/protocols/streams.py:358-370 | a head that ends is taken for HTTP/1 if and only if its start line begins with "HTTP/" or its first word is one of the methods |
| Conversation.MessagesAreAnalyzed | netreplay/core/protocols/streams.py:480-502 | a direction with such a head is read as HTTP/1 and nothing else |
| Conversation.KeptBytesAreWritten | netreplay/core/flows/conversation.py:72-95 | over any run the kept bytes are as many as the streams wrote |
| Conversation.FlushBypassesAnalysis | netreplay/core/flows/conversation.py:97-98 | over every packet list a flush changes no analysis, and in either direction kept and written bytes agree after it if and only if before it no waiting segment started or ended beyond the position |
| Conversation.WaitsBeyondIff | netreplay/core/flows/reassembly.py:199-230 | in unbounded offsets that is a waiting piece whose end lies beyond the position |
| Conversation.FlushedBytesAreNotAnalyzed | netreplay/core/flows/conversation.py:72-98 | two packets with a hole between: the flush emits two bytes, four are counted as written, two are analysed |
| Checksum.Compute | netreplay/core/replay/remap.py:86-94 | the folding loops compute the one's-complement checksum |
| Checksum.FoldIsResidue | netreplay/core/replay/remap.py:92-93 | folding keeps the residue modulo 65535, and only zero folds to zero |
| Checksum.StoredChecksumVerifies | netreplay/core/replay/remap.py:86-94 | a zeroed aligned field filled with the checksum makes the data sum to all ones |
| Checksum.VerifyingWordIsUnique | netreplay/core/replay/remap.py:86-94 | two words that both verify are equal or the two forms of zero |
| Remap.RemapFrame | netreplay/core/replay/remap.py:101-153 | the in-place rewrite is the field-by-field specification, with the overflow error of an oversized transport part |
| Remap.RewritePorts | netreplay/core/replay/remap.py:137-144 | both ports are looked up in the original frame and written over the buffer |
| Remap.FixTransportChecksum | netreplay/core/replay/remap.py:164-194 | UDP length and checksum or TCP checksum over the pseudo-header and the covered bytes; a disabled UDP checksum stays |
| RemapTheorems.OnlyMappedFieldsChange | netreplay/core/replay/remap.py:101-194 | every byte outside the address, port, length and checksum fields is the original's |
| RemapTheorems.AddressesAreMapped | netreplay/core/replay/remap.py:107-135 | each MAC and IPv4 address of the result is the mapped one of the same field, so source and destination are not swapped |
| RemapTheorems.PortsAreMapped | netreplay/core/replay/remap.py:137-144 | each port of the result is the mapped port of the original frame |
| RemapTheorems.IpHeaderVerifies | netreplay/core/replay/remap.py:146-148 | after an address change the IPv4 header sum verifies |
| RemapTheorems.TransportVerifies | netreplay/core/replay/remap.py:150-194 | after an address or port change the pseudo-header sum verifies on offset-zero TCP and UDP frames with a checksum field |
| RemapTheorems.TcpSumsToOnes | netreplay/core/replay/remap.py:150-194 | on a mapped TCP frame's own bytes: the addresses, the number 6, the transport length and the transport bytes sum to all ones |
| RemapTheorems.UdpSumsToOnes | netreplay/core/replay/remap.py:150-194 | so they do on a mapped UDP frame with an enabled checksum, with 17, and its UDP length is the transport length |
| RemapTheorems.DisabledChecksumStays | netreplay/core/replay/remap.py:171-175 | a UDP sender's zero checksum survives |
| RemapTheorems.RemapFailsIff | netreplay/core/replay/remap.py:101-194 | remapping raises if and only if the transport step has a length to write that 16 bits cannot hold |
| RemapTheorems.OffloadedFrameFails | netreplay/core/replay/remap.py:168-177 | every mapped frame of 64 KiB of transport bytes and total length zero raises |
| RemapInverse.RemapRoundTrip | netreplay/core/replay/remap.py:86-194 | mapping and mapping back restores every frame with correct checksums byte for byte if and only if the transport step does not run on an enabled UDP checksum that fits and whose readdressed covered bytes have checksum zero |
| RemapInverse.LossIsForeseen | netreplay/core/replay/remap.py:164-194 | that condition, on the frame and configuration alone, holds exactly when the remapped frame reads as having its checksum disabled |
| RemapInverse.NonUdpAlwaysComesBack | netreplay/core/replay/remap.py:86-194 | TCP, other protocols and non-IPv4 frames always come back under an invertible configuration |
| RemapInverse.BackwardsUndoes | netreplay/core/replay/remap.py:55-83 | the inverse of an invertible configuration undoes it on every address and port |
| RemapInverse.ReaddressBack | netreplay/core/replay/remap.py:107-144 | addresses and ports mapped and mapped back are the original frame |
| RemapInverse.UdpChecksumCanBeLost | netreplay/core/replay/remap.py:171-194 | a correct UDP frame that swapping two ports twice does not restore |
| RemapFragments.TransportPartKeptIff | netreplay/core/replay/remap.py:137-194 | a frame, fragment or not, keeps every byte behind its IPv4 header if and only if neither port place maps to another number and either its offset is non-zero, nothing is mapped, no checksum is written, or length and checksum already are those of the readdressed bytes |
| RemapFragments.LaterFragmentKeptIff | netreplay/core/replay/remap.py:137-151 | a later fragment is kept if and only if neither of its two "ports" maps to another number |
| RemapFragments.FirstUdpFragmentIsDamaged | netreplay/core/replay/remap.py:150-177 | every mapped first UDP fragment that states the length of a longer datagram is changed behind its header |
| RemapFragments.FirstFragmentIsRecomputed | netreplay/core/replay/remap.py:150-194 | a first fragment whose length and checksum are replaced by those of the fragment |
| RemapFragments.LaterFragmentIsOverwritten | netreplay/core/replay/remap.py:137-144 | a later fragment whose first two data bytes are overwritten as a source port |
| Validate.ValidateFrame | netreplay/core/replay/validate.py:39-87 | the issue list is empty if and only if the frame is structurally acceptable |
| Validate.AcceptedStaysAccepted | netreplay/core/replay/validate.py:39-87 | whatever the validator accepts, with or without checksum checking, can be remapped and is accepted afterwards |
| FrameCodec.WrittenIsAcceptedIff | netreplay/core/replay/validate.py:39-87 | of all frames written field by field exactly those are accepted that are not IPv4 or have version 4, a whole header, a total length between header and frame, four transport bytes for TCP and UDP and, where it is checked, the right header checksum |
| FrameCodec.HeaderlessIsAcceptedIff | netreplay/core/replay/validate.py:39-87 | a frame without a fixed IPv4 header is accepted if and only if it has 14 bytes and its type is not IPv4 |
| FrameCodec.FieldsReadBack | netreplay/core/replay/remap.py:107-161 | of a written frame the readers find just its fields: type, header length, protocol, addresses, fragment offset without the flags, whether ports can be read |
| Addresses.DottedComesBack | netreplay/core/replay/remap.py:44-51 | every IPv4 address reads back from its dotted text |
| Sanitize.Redactor.Ip | netreplay/core/sanitize.py:60-66 | a text gets the pseudonym of its first appearance and nothing registered is renamed |
| Sanitize.Redactor.ObserveFrame | netreplay/core/sanitize.py:116-125 | a frame's MAC addresses and IPv4 header addresses are registered |
| Sanitize.Redactor.RemapConfig | netreplay/core/sanitize.py:96-109 | every mapped address goes to the pseudonym of a registered text that denotes it, and with canonical texts each registered one to its own; an unreadable text is the error |
| Sanitize.NamedIsInjective | netreplay/core/sanitize.py:60-66 | equal pseudonyms come only from equal texts |
| Sanitize.PseudonymParsesIff | netreplay/core/sanitize.py:60-66 | the n-th pseudonym is an address if and only if n is below 65536 |
| Sanitize.SanitizedMatches | netreplay/core/sanitize.py:148-196 | a packet row that agreed with its frame's header addresses still agrees after both are rewritten |
| Sanitize.HeaderStaysIff | netreplay/core/sanitize.py:1-12 | a registered header address is still in the rewritten frame if and only if the IPv4 header is cut short or malformed or the address is its own pseudonym |
| Sanitize.MalformedHeaderStays | netreplay/core/replay/remap.py:115-121 | a frame that looks like IPv4 but has no whole header keeps its addresses under every remapping |
| Sanitize.CutOptionsLeak | netreplay/core/sanitize.py:116-125 | a frame cut off in its IPv4 options whose registered source address survives |
| Sanitize.SanitizeSession | netreplay/core/sanitize.py:128-210 | both passes: rows and frames renamed by one injective table, on IPv4-only sessions well-formed headers naming pseudonyms only and agreement with rows kept; pseudonyms number the texts by first appearance, each frame's two MAC addresses are 02:00:00 and the number of their first appearance when they are redacted, and untouched when not; it succeeds if and only if none of the three reasons for failing holds, and, redacting addresses, never on an endpoint text that is not IPv4 |
| SanitizeOrder.NumberedByFirstMention | netreplay/core/sanitize.py:60-75 | the numbers are positions in lists that hold every address the session mentions once, in the order of first mention: packets before flows, a header before its row, MAC destination before source |
| DisplayFilter.Tokenize | netreplay/core/display_filter.py:53-90 | the index loop yields the token list of the text or its first bad token |
| DisplayFilter.Parser.ParseAll | netreplay/core/display_filter.py:144-148 | the cursor parser returns what the grammar functions do and consumes everything |
| DisplayFilter.CompileFilter | netreplay/core/display_filter.py:281-287 | compiling is tokenizing and parsing, the empty text standing for one fixed comparison |
| DisplayFilterTheorems.ParserIsTheGrammar | netreplay/core/display_filter.py:144-190 | the parser accepts exactly the token lists the grammar derives, with precedence and left association |
| DisplayFilterTheorems.PrintThenCompile | netreplay/core/display_filter.py:53-196 | every expression whose values one of the quotes can enclose survives the minimal-parenthesis printer and the compiler |
| DisplayFilterTheorems.CompileThenPrint | netreplay/core/display_filter.py:281-287 | whatever text compiles denotes such an expression, and printing it compiles to the same one |
| DisplayFilterTheorems.RenderedTokensComeBack | netreplay/core/display_filter.py:53-90 | clean tokens separated by blanks are read back one for one |
| DisplayFilterTheorems.TokensReadAreClean | netreplay/core/display_filter.py:53-90 | every token the tokenizer produces is clean |
| FilterMeaning.CompiledFiltersEvaluate | netreplay/core/display_filter.py:233-262 | no compiled filter meets the unsupported-operator error, and its printed form selects the same rows |
| FilterTexts.CombinedFiltersSelect | netreplay/core/display_filter.py:104-190 | for all texts p and q that compile and are not blank, `(p) and (q)` compiles and selects exactly the rows both select, `(p) or (q)` those either selects, `not (p)` the rest |
| FilterMeaning.FiniteNumbersCompare | netreplay/core/display_filter.py:233-262 | on a single-valued field whose text and operand read as finite numbers all six operators are those of the numbers |
| FilterMeaning.InfinitiesCompare | netreplay/core/display_filter.py:226-262 | infinity lies above and minus infinity below every other number |
| FilterMeaning.TextsCompare | netreplay/core/display_filter.py:233-262 | texts that are not both numbers are equal without case and never ordered; `contains` holds when the operand stands somewhere in the text without case |
| FilterMeaning.EitherEndpoint | netreplay/core/display_filter.py:199-249 | `ip` is `src` or `dst` and `port` is `sport` or `dport` under every operator |
| FilterMeaning.EmptyFilterMatchesIff | netreplay/core/display_filter.py:281-286 | the empty filter matches a row if and only if it has a protocol or an event type |
| FilterMeaning.EmptyFilterSkipsARow | netreplay/core/display_filter.py:281-287 | the empty text compiles to a comparison that does not select a row with neither attribute |
| FilterMeaning.NotEqualNegatesEqualIff | netreplay/core/display_filter.py:199-249 | `!=` is the negation of `==` if and only if the row has the attribute, or for `ip` and `port` one of the two and, if both, both equal to the value or both not |
| FilterMeaning.BothOrNeither | netreplay/core/display_filter.py:233-249 | between two different addresses both hold for the first one; on a row without the attributes neither does |
| FilterMeaning.BothHoldOnARow | netreplay/core/display_filter.py:233-249 | a packet row on which `ip ==` and `ip !=` of one address both hold |
| FilterMeaning.OrderNegatesIff | netreplay/core/display_filter.py:233-262 | on single-valued fields `<` and `>=`, `<=` and `>` are each other's negation if and only if both sides are numbers, infinite ones included, other than nan, and then exactly one of `<`, `==`, `>` holds |
| FlowTracker.SameKeyIff | netreplay/core/flows/tracker.py:15-30 | two packets share a flow key if and only if they have the same protocol and the same endpoints in either order |
| FlowTracker.KeyIgnoresDirectionIff | netreplay/core/flows/tracker.py:15-30 | the flow key is the same in both directions if and only if both ports are known, or neither, or the known one is zero |
| FlowTracker.KeyDependsOnDirection | netreplay/core/flows/tracker.py:15-30 | a packet whose only known port is 53 has another key than its reply |
| FlowTracker.FlowTracker.Feed | netreplay/core/flows/tracker.py:43-67 | a packet is counted into the flow of its key, created with the next number on first sight |
| Storage.StoredTimeReadsBack | netreplay/core/timebase.py:33-40 | stored microseconds read back exactly and storing rounds to the nearest microsecond, of two equally near to the even one |
| Storage.ChunkBytes | netreplay/core/storage/nrp.py:21-28 | the chunk loop yields the numbered blocks of the data |
| Storage.ChunksJoinBack | netreplay/core/storage/nrp.py:21-28 | blocks are numbered consecutively, none empty or over-long, and joined in order are the data |
| Storage.SessionStorage.CommitBatch | netreplay/core/storage/database.py:624-630 | only the outermost commit makes writes durable; a refused one leaves the batch closed and the writes pending |
| Storage.SessionStorage.RollbackBatch | netreplay/core/storage/database.py:632-638 | a rollback restores the last durable tables from any depth and does nothing outside a batch; when it raises the batch is closed all the same and nothing durable changes |
| Storage.SessionStorage.AddPacket | netreplay/core/storage/database.py:650-684 | the next id, row and blocks are added, durable at once only outside a batch; a failed write leaves durable state alone |
| Storage.SessionStorage.UpsertFlow | netreplay/core/storage/database.py:686-713 | a flow row is inserted or all but its start time updated |
| Storage.SessionStorage.Finalize | netreplay/core/storage/database.py:870-911 | pending writes and the final counts are two transactions, either of which may fail |
| Capture.StoredAgrees | netreplay/core/service.py:201-247 | for every packet list, what the loop stores agrees with it: rows in order with all fields, bytes, one flow per key named after its first packet with exact counts, sums and times, events naming their packets |
| Capture.CheckpointAgrees | netreplay/core/service.py:191-288 | a durable state holds exactly a prefix of the parsed packets |
| Capture.CaptureController.StoreSeen | netreplay/core/service.py:201-247 | one packet extends what is stored by exactly that packet, or a raising step leaves durable state alone |
| Capture.CaptureController.ProcessFrames | netreplay/core/service.py:191-253 | the batching loop: fewer than the policy's packets are ever uncommitted (none under an unknown mode, all of them under "never"), under the time policy uncommitted packets are all seen within its seconds of the last commit; it commits exactly when a commit is due, under packets=n after every n-th packet, and the k-th durable state holds the packets up to the k-th commit; malformed frames are counted and skipped |
| Capture.CaptureController.Run | netreplay/core/service.py:171-288 | whatever step fails, every state ever durable agrees with a prefix of the processed packets, fewer than n are missing at the end under packets=n (n only after a refused commit), and the final counts and status are right; a finished clean-up leaves just the last good batch unless a commit was refused, and then every packet processed; with no fault every due commit is made and it ends ready and complete |
| Capture.RefusedCommitOutlivesItsBatch | netreplay/core/service.py:171-288 | a run of one packet whose only fault is a refused commit: it is finalized with that packet durable although no batch committed |
| Timing.BuildSchedule | netreplay/core/replay/timing.py:131-153 | the loop yields the planned wait before every packet |
| Timing.Play | netreplay/core/replay/timing.py:156-168 | on a virtual clock playing takes exactly the sum of the schedule |
| Timing.FaithfulFollowsSchedule | netreplay/core/replay/inject.py:166-175 | a faithful replay's waits are the planner's schedule on every list of times |
| Timing.FaithfulTelescopes | netreplay/core/replay/timing.py:131-153 | faithful waits add up to the scaled time between first and last packet |
| Timing.StoryIsShorter | netreplay/core/replay/inject.py:166-175 | a story wait is the scaled gap when that is at most the cap and the cap when it is more, and in total never more than the faithful ones |
| Timing.StoryFollowsScheduleIff | netreplay/core/replay/inject.py:148-175 | running and planned story waits agree on all recordings if and only if the cap is the planner's cap divided by the speed |
| PacketQuery.AllPackets | netreplay/core/storage/database.py:1171-1193 | for every page size but zero the keyset pages together are all rows in (ts, id) order |
| PacketQuery.AfterKeyIsRest | netreplay/core/storage/database.py:1186-1192 | the rows after a key are, in order, exactly the rest of the sorted list |
| PacketQuery.CapturedBytesComeBack | netreplay/core/storage/database.py:1224-1238 | a stored packet's joined blocks are the captured frame byte for byte |
| PacketQuery.BytesForCapturedOnly | netreplay/core/storage/database.py:1224-1238 | of a captured session the packets' numbers, and no others, have bytes: those captured |
| ReplayOut.ReplayOutService.Run | netreplay/core/replay/inject.py:139-206 | with stops and errors anywhere, the frames sent are a prefix of select, prepare, drop rejects and take(limit) over the sorted rows after the offset, all of them when nothing interferes; packets + skipped + failed are the rows visited and drift is zero |
| ReplayOut.ReplayOutService.Step | netreplay/core/replay/inject.py:153-187 | one row: the offset, the limit and the selection in this order, then its wait and its frame, with counters, waits and frames kept exact or the run ended |
| ReplayOut.ReplayOutService.Prepare | netreplay/core/replay/inject.py:208-225 | a row's frame is its stored bytes mutated, remapped and dropped if invalid, with the first error |
| ReplayOut.WhatWasWanted | netreplay/core/replay/inject.py:153-187 | the frames of the rows visited are a prefix of the wanted ones, and all of them at the end or at the limit |
| ReplayTheorems.FramesAreSendable | netreplay/core/replay/inject.py:163-219 | the frames of the pipeline are, one for one and in row order, what the rows at increasing places may send: their stored frame mutated, then remapped, and valid if validation is on; no other row may send anything |
| ReplayTheorems.SelectedPacketsAreSent | netreplay/core/replay/selection.py:50-60 | from capture to wire: a job that only selects sends the captured frames, byte for byte and each once, in order of stored time, of exactly the packets whose number is among the ids, whose flow is among the flows and whose stored time lies in the closed window, each as far as given |
| ReplayTheorems.OffsetAndLimitApply | netreplay/core/replay/inject.py:139-187 | with an offset and a limit: of all packets in time order those from the offset on are looked at, and of the chosen ones as many are sent as the limit allows |
| ReplayTheorems.FaithfulReplayTakesRecordedTime | netreplay/core/replay/inject.py:147-206 | a faithful replay on a virtual clock takes exactly the recorded time between the first and last frame it waited for, scaled |
| ReplayTheorems.ReplayReproducesCapture | netreplay/core/replay/inject.py:139-225 | replaying a captured session as recorded sends every captured frame byte for byte, in capture order when no time steps back |
| EventGraph.EventGraph.Add | netreplay/core/events/models.py:57-62 | an event with an unknown parent is refused and changes nothing; otherwise parents always precede their children |
| EventGraph.EventGraph.Ancestors | netreplay/core/events/models.py:83-98 | on every graph, repeated ids or not, the walk yields exactly the ids above this one as they are registered, oldest first and each once; with unique ids that is the parent chain |
| EventGraph.EventGraph.Descendants | netreplay/core/events/models.py:100-113 | on every graph the stack walk yields one event for each id below this one, ordered by time; with unique ids exactly the events that have this one on their chain |
| EventGraph.EventGraph.ChainsLeadBack | netreplay/core/events/models.py:50-62 | with unique ids no event is its own ancestor |
| EventGraph.AddMakesCycleIff | netreplay/core/events/models.py:57-98 | adding an event to a graph without cycles makes one if and only if it names its own id as parent or its id is above the parent it names, as ids are registered before the call |
| EventGraph.FreshIdsStayAcyclic | netreplay/core/events/models.py:57-62 | so an event with an id not used before never does |
| EventGraph.SubtreesExact | netreplay/core/events/models.py:100-113 | depth-first order visits an event if and only if it lies below, and then once |
| EventGraph.AncestorsMirrorDescendants | netreplay/core/events/models.py:83-113 | one event is among another's ancestors if and only if the other is among its descendants |
| EventGraph.RepeatedIdMakesCycle | netreplay/core/events/models.py:57-98 | with a repeated id an event can be its own parent, and is then among its own ancestors |
| RecordIterator.IterRecords | netreplay/core/protocols/decrypt.py:139-150 | the loop yields the records with their offsets and whether the last is cut off |
| RecordIterator.WalkIsFraming | netreplay/core/protocols/decrypt.py:139-150 | on every input the walk finds exactly the framed records, back to back, and reports truncation if and only if at least a record header is left over |
| RecordIterator.WireIsWalked | netreplay/core/protocols/decrypt.py:139-150 | serialised records are walked one for one, as the incremental parser reads them |
| Transcript.IterHandshakeMessages | netreplay/core/protocols/decrypt.py:153-168 | the message loop yields the messages of a body up to padding or truncation |
| Transcript.MessagesComeBack | netreplay/core/protocols/decrypt.py:153-168 | any list of written messages comes back from its concatenation, whether nothing, zero padding or a message cut short anywhere follows |
| Transcript.OrderedFinished | netreplay/core/protocols/decrypt.py:601-641 | grouping and joining by rank is the stable rank order |
| Transcript.TranscriptRecoveredIff | netreplay/core/protocols/decrypt.py:601-641 | the wire order is recovered from the two directions if and only if it was ordered by rank and, within a rank, client before server |
| Transcript.FullTls12IsRecovered | netreplay/core/protocols/decrypt.py:604-633 | every full TLS 1.2 handshake, tickets included, is recovered |
| Transcript.Tls13IsRecovered | netreplay/core/protocols/decrypt.py:604-633 | every TLS 1.3 handshake without client authentication or retry is recovered |
| Transcript.OtherHandshakesAreReordered | netreplay/core/protocols/decrypt.py:618-633 | resumed TLS 1.2, client-authenticated TLS 1.3 and retried hellos are not |
| MockHello.TlsClientHello | netreplay/core/capture/mock_backend.py:34-51 | the builder yields one whole record for names up to 65471 bytes and fails on longer ones |
| TlsPacket.ParseSniFromClientHello | netreplay/core/protocols/tls.py:63-112 | the packet-level hello walk finds the first host name of any server_name extension |
| TlsPacket.Analyze | netreplay/core/protocols/tls.py:115-144 | what one payload says: record and message type, version, name |
| HelloTheorems.NameComesBack | netreplay/core/capture/mock_backend.py:34-51 | every name short enough comes back from both the stream and the packet parser, whatever follows the record |
| HelloTheorems.PacketReadsHello | netreplay/core/protocols/tls.py:63-112 | of any written hello the packet parser reports the first name of its first server_name extension that has one |
| HelloTheorems.ParsersAgreeIff | netreplay/core/protocols/tls.py:63-112 | packet and stream parser report the same name if and only if the last server_name extension names what the first naming one does, so always with at most one |
| HelloTheorems.ParsersCanDisagree | netreplay/core/protocols/tls.py:63-112 | a hello naming "a" and then "b" on which they differ |
| CutHellos.PacketIsAnalyzed | netreplay/core/protocols/tls.py:115-144 | any payload that starts a handshake record: its type and version, and of a client hello the name in as much of the message as the two lengths and the payload leave |
| CutHellos.CutPacketHasNoName | netreplay/core/protocols/tls.py:63-144 | a packet that ends anywhere before its hello does is reported with type and version but no name |
| CutHellos.BuiltIsWritten | netreplay/core/capture/mock_backend.py:34-51 | what the builder makes is, byte for byte, the written hello with its five suites and one name |
| MockHello.AsciiNamesComeBack | netreplay/core/capture/mock_backend.py:36 | a name's encoding decodes to the name if and only if it is ASCII |
| Pcapng.ExportPcapng | netreplay/core/export.py:65-83 | the file is the encoding of its blocks, refused exactly when some packet overflows a length field |
| Pcapng.FileIsSelfDelimiting | netreplay/core/export.py:57-83 | walked forwards by leading or backwards by trailing lengths the file is the same 2+n aligned blocks; byte-order magic and version, link type and snapshot length, and of every packet the interface, 64-bit timestamp, frame and original length read back |
| Pcapng.PaddingIsZeros | netreplay/core/export.py:57-62 | filling up a block appends fewer than four zero bytes |

## Left out

- Conversation.Conversation.AnalyzeStreams: the messages of a recognised HTTP/1 stream are a function parameter, because that parser's result depends on how the bytes were cut; only whether it recognises a stream is modelled.
- TlsStream.TlsStreamParser.Feed: cipher suites, versions and message types stay numbers instead of display names, and the `_saw_*` flags that nothing reads are dropped.
- Conversation.Conversation.Feed: round-trip and window metrics are not modelled; `protocol_hint` is always None, as in its only caller.
- FlowTracker.FlowTracker.Feed: the TCP connection state shown with a flow is not modelled.
- Storage.SessionStorage.AddPacket: the session, stream, protocol-fact and info columns are not modelled, and SQLite is two copies of the tables, committed and working.
- Storage.SessionStorage.UpsertFlow: the state column and the stream row written with a flow are not modelled.
- Storage.StoredTimeReadsBack: times are exact reals, not floats.
- Storage.SessionStorage.Finalize: the content hash, the gap count and the complete/degraded label are not modelled.
- Capture.CaptureController.Run: the events raised for a packet are an input, so event generation and the conversations inside the loop are not connected to it; stream metrics, callbacks and threads are left out; a failing step may raise at any point of a packet.
- Timing.BuildSchedule: times and speeds are exact reals, not floats; the wall clock is not modelled.
- ReplayOut.ReplayOutService.Run: the clock is the virtual one, the mutation pipeline a function that may fail, and progress reports carry no numbers.
- FilterMeaning.CompiledFiltersEvaluate: lower-casing and number parsing are parameters.
- Sanitize.SanitizeSession: host names, event texts and the report are not modelled; MAC pseudonyms are bytes rather than their text.
- Addresses.DottedComesBack: the parser takes plain decimal digits; the signs, blanks and underscores Python's `int` also accepts are refused.
- Transcript.OrderedFinished: decryption and the hashes over the transcript are not modelled; messages are given as bytes.
- Pcapng.ExportPcapng: the file is a byte string, so the partial file an overflow leaves behind is not modelled; the classic pcap, JSON, NDJSON and CSV writers are left out.
- EventGraph.EventGraph.Descendants: with repeated ids it is not stated which of the events of an id is the one output, nor the order among equal times.
- The relation of `EventGraph.timeline`, `for_packet`, `for_flow` and the other one-line projections to the graph: each is a comprehension.
- The GUI, command line, web routes, live capture and packet parsing, sockets and files.
- Schema migration, session listing, scenarios, statistics, comparison and packet-loss reports.
- TLS record decryption, key derivation and the key log.
- `JobManager` and the bridge.
