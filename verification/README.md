# Verified model of the DDTSoft network tester

The repository holds a UEFI network test application written in C and a Linux
companion written in Python. This project models the parts of it that are
algorithms and proves what they are for: the frame codec with its Internet
checksum, the control protocol between application and companion, the SMBIOS
table walk, the DNS name codec and responder, and six smaller in-place
algorithms. `dafny verify dfyconfig.toml` checks everything.

## Modules

| file | what it holds |
|---|---|
| Bytes.dfy | octets, big-endian fields, writes into a buffer |
| Checksum.dfy | the deferred-carry checksum and the sum of section 1 of RFC 1071 |
| PacketDefs.dfy, PacketFrames.dfy | sizes and codes, the bytes of each frame |
| PacketBuilder.dfy, PacketParser.dfy | the builders on an array, the parser on an object |
| PacketProofs.dfy | round trips, layering, damage detection |
| FrameFilter.dfy | the control channel's own receive path |
| ControlText.dfy, ControlEndpoints.dfy, ControlProtocol.dfy | message text, the two endpoint objects, runs over a network |
| SmbiosFields.dfy, Smbios.dfy | memory devices and processors laid out from records; structures, string sets, the walk and its records |
| DnsNames.dfy, DnsResponder.dfy | name codec, server object |
| AddressText.dfy, DnsProofs.dfy | address text read back, answers read back |
| Ring.dfy | slots of a ring buffer |
| NicDiscovery.dfy, MtuSearch.dfy, ProbeStats.dfy, EventLog.dfy, Dhcp.dfy, QuickScan.dfy | one algorithm each |

Code that updates a buffer or an object is a method on an `array` or a `class`
whose postcondition names a specification function (`UdpFrame`, `Parse`,
`ReplyTo`, `Survivors`, ...) and states beside it, in bytes, texts and numbers,
what the operation is for. The lemmas pin those functions to readers that are
defined apart from them: what a receiver parses, what decimal text reads as, the
record a structure was written from. In the protocol model the network is two
sets of texts that only grow: a message may be delivered at any later time, any
number of times, or never, which is loss, delay, duplication and reordering
without invention.

## What the proofs found

- The checksum routine is documented for any buffer
  (Source/PacketBuilder.c:17-18). It computes the RFC 1071 value exactly when the
  word sum stays below 2^32 or overflows by a multiple of 65535 carries, so for
  every buffer of up to 131074 bytes; 131075 bytes of 0xFF get another value.
- A frame's payload comes back exactly if it has at most 65507 bytes (ICMP, UDP)
  or 65495 (TCP): the builders cast lengths to 16 bits.
- Any single changed byte of a checksummed ICMP or TCP segment drops the
  checksum flag, and for TCP one of the addresses does too. For UDP the flag stays up exactly when the damage turns the
  stored checksum into 0, which means "no checksum"; there are such datagrams.
- A changed byte of the IPv4 header drops its flag too, with one exception. The
  header is summed over the length that its first byte gives, so a change there
  passes when the words then taken in, or left out, make up for it. One flipped
  bit is enough.
- The frame filter of the control channel and the packet parser differ. Of the
  frames the filter takes, the parser rejects those with a header below 20 bytes,
  with a TotalLength past the end of the frame or with one that leaves no room
  for a UDP header. Of the datagrams the parser reports, the filter rejects those
  whose version is not 4 or whose UDP length is 8 or runs past the frame. The
  payloads agree exactly when the UDP length also agrees with TotalLength.
- Within one session CONNECTED on the client implies a connected server, except
  inside CompanionDisconnect, which sends DONE while the state still says
  CONNECTED. Over several sessions the claim fails, because
  messages carry no session; a CONNECTED client is at risk exactly while some
  DONE is in flight.
- CompanionStart is documented to succeed when the companion acknowledged START
  (Source/CompanionLink.c:936). HELLO and START are answered with the same word,
  so the handshake's ACK does as well, and it can arrive at every START that
  waits. START and STOP are also answered alike, so START can succeed on a STOP.
  What the client can go by, the text and whether it sent a STOP, proves an
  agreed START exactly when the text is not the greeting, and not a plain ACK with
  a STOP sent. The same goes for STOP.
- CompanionGetResult succeeds on any text that does not start with ERROR: on the
  handshake's ACK, which can arrive at every RESULT that waits, and on every other
  answer of the server. Only a REPORT proves that a result was given. With a
  result buffer of 1 to 5 bytes it succeeds on errors as well.
- Encoded DNS names decode back exactly when every label has 1 to 191 bytes;
  RFC 1035 stops at 63. A name whose compression pointers end in one to the root
  gets a trailing dot.
- A PTR query is answered with one label that holds the whole reversed text. Above
  250 characters that label cannot be encoded and the handler raises, for names
  that RFC 1035 allows; above 186 the answer does not decode back. For the
  reverse name of any IPv4 address neither happens.
- SMBIOS fields are read whatever the structure's Length. A processor structure
  below 38 bytes or a memory device below 34 gives bytes of its strings.
- A call of the client ends in success only on a text that came while it waited:
  a timeout or a failed transmit never does it.
- Looking up the companion's own address and then the name obtained returns the
  address exactly when the configured domain is written in lower case: queries
  are lowered, records are not. The name given for any other address resolves to
  the companion's address too.

## Model

| member | source | states |
|---|---|---|
| Checksum.ComputeChecksum | Source/PacketBuilder.c:25-58 | the loop over words, the odd byte and the folding give the complement of the folded 32-bit sum of the buffer |
| Checksum.AddWords | Source/PacketBuilder.c:36-48 | the accumulator holds the word sum modulo 2^32, odd lengths padded with zero |
| Checksum.FoldCarries | Source/PacketBuilder.c:50-55 | folding terminates with the fold of the sum |
| Checksum.FoldIsResidue | Source/PacketBuilder.c:50-55 | the folded value is the sum's residue modulo 65535, with 0 only for 0 and 65535 for its other multiples |
| Checksum.OnesSumIsResidue | Source/PacketBuilder.c:16-24 | the word-by-word end-around-carry sum of RFC 1071 section 1 has the same residue |
| Checksum.DeferredCarriesAgree | Source/PacketBuilder.c:31-57 | for every buffer, the routine gives the RFC 1071 checksum if and only if the word sum fits 32 bits or overflows by a multiple of 65535 carries with something left |
| Checksum.Rfc1071Agreement | Source/PacketBuilder.c:16-58 | equality with RFC 1071 for every buffer of up to 131074 bytes |
| Checksum.AccumulatorFits | Source/PacketBuilder.c:31-48 | the UINT32 sum does not overflow for up to 131074 bytes |
| Checksum.AccumulatorBoundIsTight | Source/PacketBuilder.c:31-57 | some buffer of 131075 bytes gets a value other than that of RFC 1071 |
| Checksum.ComputePseudoChecksum | Source/PacketBuilder.c:72-116 | the value of the plain checksum over source, destination, a zero, the protocol, the length in two bytes and the segment, odd lengths included |
| Checksum.ValidIff | Source/PacketParser.c:37-38 | any buffer validates if and only if its word sum modulo 2^32 is a positive multiple of 65535 |
| Checksum.OnesOnlyForZeros | Source/PacketBuilder.c:50-57 | 0xFFFF is returned exactly when the word sum modulo 2^32 is 0; up to 131074 bytes exactly for the all-zero buffer |
| Checksum.FilledFieldValidates | Source/PacketBuilder.c:425-430 | storing the checksum in its zeroed aligned field makes any buffer validate; a 0 stored as 0xFFFF does so exactly while the accumulator has room, hence up to 131074 bytes |
| Checksum.OneByteDetected | Source/PacketParser.c:62-63 | any valid buffer, of any length, with one byte changed no longer validates |
| Checksum.TwoBytesDetected | Source/PacketParser.c:62-63 | in a buffer of any length two adjacent changed bytes pass if and only if 00 00 and FF FF were swapped and the accumulator neither overflows nor runs empty |
| Checksum.TwoBytesDetectedShort | Source/PacketParser.c:62-63 | up to 131074 bytes: if and only if they were swapped and the buffer is not all zero then |
| Checksum.WordOrderIrrelevant | Source/PacketBuilder.c:39-41 | permuting aligned words never changes the checksum |
| PacketBuilder.BuildEthernetHeader | Source/PacketBuilder.c:134-150 | destination, source and type stand at their 14 bytes from the offset on, the rest of the buffer is kept |
| PacketBuilder.BuildIpv4Header | Source/PacketBuilder.c:165-195 | the 20 bytes spelled out: version and length, TOS, total length, identification, DF, TTL, protocol, addresses, and a checksum that checks; the rest is kept |
| PacketBuilder.BuildArpRequest | Source/PacketBuilder.c:213-239 | the 42 bytes parse to a broadcast ARP request with every field; the rest is kept |
| PacketBuilder.BuildArpReply | Source/PacketBuilder.c:252-278 | the 42 bytes parse to a unicast ARP reply with every field; the rest is kept |
| PacketBuilder.BuildIcmpEchoRequest | Source/PacketBuilder.c:295-347 | the payload given stands behind the headers, or for a NULL one the bytes that stood there; what lies behind is kept; the returned size carries the 16-bit cast; and the bytes of that size, for up to 65507 bytes of payload, parse to the right layers with both checksums good, every header field and the payload |
| PacketBuilder.BuildUdpPacket | Source/PacketBuilder.c:364-433 | the same for UDP, whose stored checksum is never 0 |
| PacketBuilder.BuildTcpPacket | Source/PacketBuilder.c:454-525 | the same for TCP with up to 65495 bytes, sequence and acknowledgement numbers byte by byte |
| PacketProofs.Ipv4HeaderBytes | Source/PacketBuilder.c:165-195 | every byte of the header that the builder lays down, for every payload length, and that its checksum checks |
| PacketParser.ValidateIpChecksum | Source/PacketParser.c:24-39 | true exactly for a header of at least 20 bytes whose checksum is 0 |
| PacketParser.ValidateIcmpChecksum | Source/PacketParser.c:50-64 | true exactly for a message of at least 8 bytes whose checksum is 0 |
| PacketParser.ValidateTcpChecksum | Source/PacketParser.c:76-98 | true exactly for a segment of at least 20 bytes that checks with its pseudo-header |
| PacketParser.ValidateUdpChecksum | Source/PacketParser.c:111-140 | true exactly for a datagram of at least 8 bytes that checks or stores no checksum |
| PacketParser.ParsePacket | Source/PacketParser.c:161-296 | status for NULL and short input, and the whole structure filled as the parse function says |
| PacketProofs.LayersTile | Source/PacketParser.c:177-296 | at most one of ARP, ICMP, TCP and UDP; headers follow one another inside the frame and the payload ends at 14 + TotalLength; the type is bytes 12 and 13 |
| PacketProofs.LayersReported | Source/PacketParser.c:194-292 | each layer is reported if and only if the frame holds a readable one, conditions spelled out; where the payload starts |
| PacketProofs.FlagsReported | Source/PacketParser.c:24-140 | when each checksum flag is up, for any frame, with the pseudo-headers spelled out |
| PacketProofs.IcmpRoundTrip | Source/PacketBuilder.c:295-347 | a built frame with any padding parses to the right layers, both checksums good, all fields and the payload back |
| PacketProofs.UdpRoundTrip | Source/PacketBuilder.c:364-433 | the same for UDP; the stored checksum is never 0 |
| PacketProofs.TcpRoundTrip | Source/PacketBuilder.c:454-525 | the same for TCP |
| PacketProofs.IcmpRoundTripExact | Source/PacketBuilder.c:312-346 | what is sent delivers the payload if and only if it has at most 65507 bytes |
| PacketProofs.UdpRoundTripExact | Source/PacketBuilder.c:382-432 | what is sent delivers the payload if and only if it has at most 65507 bytes |
| PacketProofs.TcpRoundTripExact | Source/PacketBuilder.c:476-524 | what is sent delivers the payload if and only if it has at most 65495 bytes |
| PacketProofs.ArpRequestRoundTrip | Source/PacketParser.c:194-207 | a built request with any padding parses to an ARP layer with every field back |
| PacketProofs.ArpReplyRoundTrip | Source/PacketParser.c:194-207 | a built reply with any padding parses to an ARP layer with every field back |
| PacketProofs.IcmpDamage | Source/PacketParser.c:247-256 | one changed byte of a good message drops the checksum flag and changes nothing else of the parse |
| PacketProofs.TcpDamage | Source/PacketParser.c:258-272 | one changed byte of a good segment drops the checksum flag |
| PacketProofs.UdpDamage | Source/PacketParser.c:274-283 | one changed byte leaves the flag up if and only if the stored checksum has become 0 |
| PacketProofs.UdpDamageMayPass | Source/PacketParser.c:124-129 | a built datagram in which one changed byte passes |
| PacketProofs.AddressDamage | Source/PacketParser.c:76-140 | one changed byte of the IPv4 addresses drops the flag of a TCP segment, and of a UDP datagram that stores a checksum, and changes no layer |
| PacketProofs.Ipv4HeaderDamage | Source/PacketParser.c:32-38 | one changed byte of a good IPv4 header drops its checksum flag, unless it is the first byte, the new length is at least 20 and the words taken in or left out make up for the change modulo 65535 |
| PacketProofs.OneBitMayPass | Source/PacketParser.c:32-38 | a datagram whose header stays valid with one bit of its length flipped |
| FrameFilter.ReceiveResponse | Source/CompanionLink.c:465-656 | for every queue of polls and media header length: the payload of the first matching frame before the timeout, to which every empty poll before it adds 2 ms and no frame does; the buffer holds as much of it as fits, a NUL and what it held before; or a NUL and a timeout if there is none; it terminates |
| FrameFilter.BuiltFramesMatch | Source/CompanionLink.c:561-641 | of all built UDP frames exactly those from the companion to this port with a payload pass, with the payload the parser reports |
| FrameFilter.OnlyFrameMatters | Source/CompanionLink.c:561-641 | with a 14-byte media header the decision depends on the frame alone, not on stale bytes of the receive buffer |
| FrameFilter.MediaHeaderSkipped | Source/CompanionLink.c:561-641 | with a longer media header the decision is that on the frame with 14 bytes in its place |
| FrameFilter.ShortMediaHeader | Source/CompanionLink.c:561-641 | no frame with a media header below 14 bytes is taken |
| FrameFilter.AcceptedParses | Source/CompanionLink.c:561-641 | of the frames the filter takes, the parser reports UDP in exactly those with a header of 20 bytes or more and a TotalLength inside the frame that leaves room for the UDP header |
| FrameFilter.ParsedAccepted | Source/CompanionLink.c:588-633 | of the UDP layers the parser reports, from the companion to this port, the filter takes exactly those of version 4 whose UDP length, less 8 modulo 2^16, is positive and inside the frame |
| FrameFilter.MatchVersusParse | Source/CompanionLink.c:629-641 | on every frame the filter takes both find the same payload if and only if the header is long enough, TotalLength is inside the frame and the UDP length agrees with it |
| FrameFilter.MatchIsMoreLenient | Source/CompanionLink.c:610-624 | a frame of each kind that only the filter takes: short header, TotalLength past the end, no room for UDP |
| FrameFilter.ParseIsMoreLenient | Source/CompanionLink.c:588-633 | a datagram of each kind that only the parser takes: other version, UDP length of 8, UDP length past the end |
| ControlText.PrepareArrives | Companion/services/control_server.py:87-105 | every PREPARE is split into the verb and the words of as much of layer, test and arguments as fits the buffer |
| ControlText.NamesArriveIff | Companion/services/control_server.py:103-108 | the callback is given the two names if and only if they are words and fit, or are left out of an otherwise blank command |
| ControlText.JoinedIffSpaced | Companion/services/control_server.py:105-105 | splitting and joining gives a text back if and only if it is words with one blank between each two |
| ControlText.RequestArrivesIff | Companion/services/control_server.py:103-108 | layer, test and arguments all arrive as meant if and only if the names are words, the arguments are words with one blank between each two and all of it fits (502 and 501 characters), or there is at most a layer |
| ControlText.PrepareIs | Source/CompanionLink.c:896-900 | whatever its arguments, even cut at 511 characters, the command is dispatched as PREPARE |
| ControlText.UpperAt | Companion/services/control_server.py:88-88 | upper-casing turns each of the 26 lower-case letters into its capital and changes nothing else |
| ControlText.SpaceIs | Companion/services/control_server.py:87-87 | the ten code points at which a message is split |
| ControlText.GetReportIs | Companion/services/control_server.py:151-159 | GETREPORT is dispatched like RESULT, by its own name |
| ControlEndpoints.ControlServer.HandleCommand | Companion/services/control_server.py:85-169 | connected flag, peer address and the text of every reply spelled out; a PREPARE that is accepted gives the callback the layer, the test and the arguments that the client named, wherever a command can carry them; the address is set exactly while connected |
| ControlEndpoints.RequestIsMeantIff | Companion/services/control_server.py:103-108 | the request read from a PREPARE has the layer, the test and the arguments named if and only if a command can carry them |
| ControlEndpoints.CompanionLink.Connect | Source/CompanionLink.c:670-747 | one to three HELLOs are sent, none after an ACK or an ERROR; the last answer decides state and status |
| ControlEndpoints.HandshakeDecided | Source/CompanionLink.c:717-733 | the first response that is an ACK or an ERROR decides the handshake |
| ControlEndpoints.HandshakeUndecided | Source/CompanionLink.c:735-746 | without such a response it ends in ERROR with a timeout |
| ControlEndpoints.CompanionLink.Disconnect | Source/CompanionLink.c:758-780 | "DONE" goes out exactly from CONNECTED; the link ends DISCONNECTED whatever comes back |
| ControlEndpoints.CompanionLink.Prepare | Source/CompanionLink.c:873-929 | refusals and text sent; a failed transmit is SendError, no response a timeout; success needs a response that starts with READY |
| ControlEndpoints.CompanionLink.Start | Source/CompanionLink.c:940-971 | refusals and text sent; a failed transmit is SendError, no response a timeout; success needs a response that starts with ACK |
| ControlEndpoints.CompanionLink.Stop | Source/CompanionLink.c:981-1010 | refusals and text sent; a failed transmit is SendError, no response a timeout; success needs a response that starts with ACK |
| ControlEndpoints.CompanionLink.GetResult | Source/CompanionLink.c:1022-1061 | refusals and text sent, a buffer of size 0 refused only then; a failed transmit is SendError, no response a timeout; any response that does not start with ERROR is a success |
| ControlProtocol.ServerKeeps | Companion/services/control_server.py:85-169 | delivering any sent message to the server keeps the invariant |
| ControlProtocol.ClientWaitKeeps | Source/CompanionLink.c:717-738 | a response or a timeout at the client keeps the invariant |
| ControlProtocol.InvariantHolds | Source/CompanionLink.c:670-1061 | the invariant holds in every reachable state |
| ControlProtocol.ConnectedBothEnds | Source/CompanionLink.c:723-727 | while no DONE is in flight, CONNECTED implies a connected server, over any number of sessions |
| ControlProtocol.SessionHolds | Source/CompanionLink.c:769-777 | in one session, outside the disconnect call, CONNECTED implies a connected server and no DONE in flight |
| ControlProtocol.DoneEndsSession | Source/CompanionLink.c:769-777 | in one session a DONE is in flight only when the client left CONNECTED or is inside the disconnect call |
| ControlProtocol.ConnectionAtRiskIffDone | Companion/services/control_server.py:161-165 | a connected pair can be parted by one delivery if and only if some DONE is in flight |
| ControlProtocol.NotConnectedOnlyAfterDone | Companion/services/control_server.py:98-153 | "Not connected" answers a session command only after the server processed a DONE |
| ControlProtocol.PrepareSuccessWasAccepted | Source/CompanionLink.c:917-920 | over all reachable states a PREPARE that succeeded means the callback accepted the request of some PREPARE sent, with the layer, test and arguments named there wherever a command can carry them |
| ControlProtocol.NoSuccessWithoutText | Source/CompanionLink.c:902-928 | a timeout, a failed transmit and a call made while not CONNECTED never end a call in success; the status they give it |
| ControlProtocol.SuccessWasEarned | Source/CompanionLink.c:917-1060 | over all reachable states: START or STOP succeeded only with the greeting or the plain ACK in flight, PREPARE only with a READY, RESULT only with a non-empty buffer and a text that, cut to it, does not start with ERROR |
| ControlProtocol.GreetingAlwaysFits | Source/CompanionLink.c:964-967 | in every reachable state in which START or STOP waits, the handshake's ACK can arrive and makes it succeed |
| ControlProtocol.AckSucceedsIff | Source/CompanionLink.c:964-970 | of the texts that can arrive at a waiting START or STOP exactly the greeting and the plain ACK make it succeed |
| ControlProtocol.AckMeansAgreement | Companion/services/control_server.py:117-139 | the plain ACK is in flight if and only if a start or stop callback agreed |
| ControlProtocol.StartSuccessMeaning | Source/CompanionLink.c:952-970 | while no STOP was sent, START succeeds exactly on the greeting, or on a plain ACK when on_start agreed to a START; after such an agreement that ACK can arrive |
| ControlProtocol.StopSuccessMeaning | Source/CompanionLink.c:993-1009 | the same for STOP while no START was sent |
| ControlProtocol.AckProvesIff | Source/CompanionLink.c:931-980 | over all reachable states, a text on which START (or STOP) succeeds proves that its callback agreed if and only if it is not the greeting, and not the plain ACK with the other command sent |
| ControlProtocol.StartMaySucceedOnStop | Source/CompanionLink.c:964-967 | a run of one session in which START succeeds on the ACK of a STOP and no START was agreed to |
| ControlProtocol.AnswerDecides | Source/CompanionLink.c:1044-1060 | the server's answer makes the call that asked succeed if and only if the server is connected and its callback agreed; result buffers of 0 to 5 bytes are the exception |
| ControlProtocol.ResultSucceedsIff | Source/CompanionLink.c:1044-1060 | a waiting RESULT succeeds on a text if and only if the buffer has room and the text, cut to it, does not start with ERROR |
| ControlProtocol.GreetingFitsResult | Source/CompanionLink.c:1050-1060 | in every reachable state in which RESULT waits, the handshake's ACK can arrive and makes it succeed |
| ControlProtocol.ReportMeansGiven | Companion/services/control_server.py:141-159 | a REPORT is in flight if and only if the callback gave a result, and each is the report of such a result |
| ControlProtocol.ResultProvenIff | Source/CompanionLink.c:1050-1060 | over all reachable states, a text proves that a result was given if and only if it is none of the server's other answers or makes the call fail; a REPORT always does |
| ControlProtocol.ResultMaySucceedUngiven | Source/CompanionLink.c:1050-1060 | a run in which RESULT succeeds with a 512-byte buffer and no REPORT was ever sent |
| ControlProtocol.StartMaySucceedUnstarted | Source/CompanionLink.c:964-967 | a run in which START succeeds on the handshake's ACK and no START was processed |
| ControlProtocol.ClosedWhileDisconnecting | Source/CompanionLink.c:769-777 | a run of one session in which the client says CONNECTED to a server that has closed |
| ControlProtocol.SecondSessionMayBeClosed | Companion/services/control_server.py:161-165 | a run in which a late DONE of the first session closes the second |
| ControlProtocol.HandshakeRefines | Source/CompanionLink.c:691-746 | the machine's handshake ends as the link object's Connect does, for every outcome of its attempts |
| ControlProtocol.CallRefines | Source/CompanionLink.c:902-928 | the machine's calls end with the status of the link object's methods |
| Smbios.GetNext | Source/SmbiosParser.c:93-111 | the byte behind the first double NUL at or after the formatted area |
| Smbios.NextIsBehind | Source/SmbiosParser.c:93-111 | on every encoded structure that is the byte right behind it: its string set has no earlier double NUL |
| Smbios.GetString | Source/SmbiosParser.c:29-63 | string number k of the encoded structure for k in 1..n, the empty string otherwise |
| Smbios.CopyString | Source/SmbiosParser.c:68-88 | the field then holds that string, cut to its size less one |
| Smbios.VisitedExactly | Source/SmbiosParser.c:352-374 | the structures visited are those before the first type 127 or the first one at or behind the table end |
| Smbios.SmbiosTables.ParseType4 | Source/SmbiosParser.c:193-216 | only the first processor is recorded; from a structure written from named fields it shows version, socket, both speeds, cores and threads; from any structure the fields found in memory at their offsets, whatever Length says |
| Smbios.SmbiosTables.ParseType17 | Source/SmbiosParser.c:221-272 | one more slot behind the others, nothing beyond 32; from a structure written from named fields it shows locator, manufacturer, part and serial number, size, both speeds, type and form factor; the counters follow the size |
| Smbios.SizeReadsBack | Source/SmbiosParser.c:250-258 | every size below 2^31 MB, encoded in the size fields, is read back; KB sizes are rounded down, unknown is 0 |
| Smbios.SmbiosTables.ParseTables | Source/SmbiosParser.c:295-377 | after the walk over a table written from records the slots show the first 32 devices and the CPU record the first processor among those visited, every field; over any table the records are those of exactly the visited structures as they are seen in memory; a second call changes nothing |
| Smbios.DeviceShown | Source/SmbiosParser.c:237-264 | a slot read from a memory device laid out by DSP0134 shows every field of the record it was written from, texts cut to 31 bytes |
| Smbios.ProcessorShown | Source/SmbiosParser.c:207-215 | the same for a processor, its version cut to 127 bytes |
| Smbios.TableReadsBack | Source/SmbiosParser.c:352-374 | the same for the whole walk, wherever the table lies and whatever stops it; nothing outside the table is read |
| SmbiosFields.PresentText | Source/SmbiosParser.c:29-63 | the string number written for a field names that field's text in the string set, 0 an empty one |
| Smbios.ProcessorOwnIffLong | Source/SmbiosParser.c:207-215 | the CPU record is that of the structure's own fields, for all string sets and places in memory, if and only if Length is at least 38 |
| Smbios.DeviceOwnIffLong | Source/SmbiosParser.c:237-264 | the slot is that of the structure's own fields, for all string sets and places in memory, if and only if Length is at least 34 |
| Smbios.ShortSees | Source/SmbiosParser.c:193-264 | a short structure with one string, whose missing field is read as a byte of that string |
| Smbios.SeenExactly | Source/SmbiosParser.c:352-374 | the i-th record of the walk is read at the first byte of the i-th structure |
| Smbios.LongTable | Source/SmbiosParser.c:352-374 | when all visited structures are long enough nothing outside the table is read and the records are those of their own fields |
| Smbios.CpuIsFirstProcessor | Source/SmbiosParser.c:199-215 | the CPU record is that of the first type 4 structure visited |
| Smbios.SlotsAreFirst32 | Source/SmbiosParser.c:230-266 | the slots are the first 32 type 17 structures visited, numbered in order |
| Smbios.CountersMatchSlots | Source/SmbiosParser.c:268-271 | populated count and 32-bit memory total agree with the slots |
| DnsNames.EncodeName | Companion/services/dns_manager.py:148-154 | the encoded labels, or an error exactly when a label is not ASCII or has 256 or more characters |
| DnsNames.DecodeName | Companion/services/dns_manager.py:128-146 | the loop with its recursion equals the decoding function, errors included |
| DnsNames.NameRoundTrip | Companion/services/dns_manager.py:128-154 | at any offset of any message decoding undoes encoding if and only if every label has 1 to 191 bytes |
| DnsNames.EncodedLength | Companion/services/dns_manager.py:148-154 | an encoded name is two bytes longer than its text |
| DnsNames.DecodeIsExpansion | Companion/services/dns_manager.py:128-146 | if every pointer goes strictly before the name that holds it: an error exactly when the calls left are fewer than the pointers followed, else the full expansion, with a dot behind it exactly when it has a label and ends in a pointer to the root |
| DnsNames.HopsBounded | Companion/services/dns_manager.py:136-142 | such a name follows no more pointers than there are bytes before it |
| DnsNames.RootPointer | Companion/services/dns_manager.py:136-142 | encoded labels followed by a pointer to the root, wherever it lies, decode to the name with a dot at the end |
| DnsResponder.FindAddress | Companion/services/dns_manager.py:158-166 | the local address exactly when the name ends in the domain |
| DnsResponder.DnsManager.Serve | Companion/services/dns_manager.py:86-91 | datagrams of 12 bytes and more are counted and answered, shorter ones are not |
| DnsResponder.DnsManager.HandleQuery | Companion/services/dns_manager.py:97-126 | for any datagram: silence if and only if it has no question or ends behind its name, failure where the name cannot be decoded, and otherwise an answer with the id and the question asked (or failure, for a host name that cannot be encoded) |
| DnsProofs.AQueryAnswered | Companion/services/dns_manager.py:156-183 | id and question kept, the answer name decodes to the name asked for, flags, counts, class and TTL spelled out, the data is the address; outside the domain RCODE 3, no record and the question again |
| DnsProofs.OtherTypesDenied | Companion/services/dns_manager.py:119-126 | every type other than A and PTR gets RCODE 3, no record and the question again |
| DnsProofs.CutQuerySilent | Companion/services/dns_manager.py:97-113 | an uncompressed query cut short anywhere gets no answer |
| DnsProofs.SelfPointerFails | Companion/services/dns_manager.py:136-142 | a name that points to itself makes the handler raise, whatever the recursion limit |
| DnsProofs.PtrQueryAnswered | Companion/services/dns_manager.py:185-217 | for every reversed address and domain: answered if and only if the domain encodes, the address text has at most 250 characters (or is the own address) and the name fits; else an exception; the host name decodes back if and only if the domain is readable and the text has at most 186 characters |
| DnsProofs.LongReverseNameFails | Companion/services/dns_manager.py:148-154 | a question within the limits of RFC 1035 on which the server raises |
| DnsProofs.ReverseOf | Companion/services/dns_manager.py:187-192 | which text a name is read back to: its first four labels in lower case, backwards, if it has four and contains "in-addr" |
| DnsProofs.AddressRoundTrip | Companion/services/dns_manager.py:156-217 | for any question whose first four labels read, backwards, as the address: PTR is answered with the companion's name for its own address and with one of the four parts for any other, and it decodes; A of that name gives the companion's address for a lower-case domain, RCODE 3 otherwise |
| DnsProofs.PtrElsewhere | Companion/services/dns_manager.py:188-192 | a PTR query of fewer than four labels or without "in-addr" gets RCODE 3 |
| DnsProofs.ReverseAddressIs | Companion/services/dns_manager.py:187-190 | the text that any such name is read back to has four decimal parts that read as the address |
| DnsProofs.HostFound | Companion/services/dns_manager.py:158-166 | a host of the domain is found if and only if the configured domain is lower case |
| DnsProofs.OwnAddressRoundTrip | Companion/services/dns_manager.py:156-217 | for any question that reads as the own address: PTR gives companion.<domain>, A of it the address again for a lower-case domain, RCODE 3 otherwise |
| AddressText.DecimalReads | Companion/services/dns_manager.py:187-203 | the decimal text of a byte reads as that byte and has no leading zero |
| AddressText.CanonicalUnique | Companion/services/dns_manager.py:187-203 | a number has one decimal text without a leading zero |
| AddressText.DottedReads | Companion/services/dns_manager.py:187-203 | the four dotted parts of an address read as its bytes, in order |
| AddressText.DottedInjective | Companion/services/dns_manager.py:187-203 | two addresses have the same text only if they are the same |
| AddressText.SpellIsDotted | Companion/services/dns_manager.py:187-203 | four parts that read as an address, joined by dots, are its text |
| AddressText.LowerAt | Companion/services/dns_manager.py:158-158 | lower-casing turns each of the 26 capitals into its small letter and changes nothing else |
| AddressText.DotsStripped | Companion/services/dns_manager.py:158-158 | all dots at the end of a name go, and nothing else |
| AddressText.ContainsIff | Companion/services/dns_manager.py:188-189 | "in-addr" is found if and only if the name is something before it, it and something behind it |
| DnsProofs.ReverseNameGood | Companion/services/dns_manager.py:187-192 | the usual in-addr.arpa name of every address is one of those questions |
| NicDiscovery.MarkDuplicates | Source/NicDiscovery.c:265-310 | the nested loops clear the handles of exactly the entries that some entry of the same MAC beats |
| NicDiscovery.CompactTable | Source/NicDiscovery.c:312-325 | in place: the live entries in order, Index equal to position |
| NicDiscovery.Deduplicate | Source/NicDiscovery.c:261-328 | the table then starts with the survivors; found says whether there are any |
| NicDiscovery.OnePerCard | Source/NicDiscovery.c:258-310 | survivors are the kept entries in order, renumbered, exactly one for every MAC present, and no live entry of a card has more protocols, or as many and an earlier place |
| NicDiscovery.ProtocolsIsCount | Source/NicDiscovery.c:280-296 | the score of an entry is the number of its ten flags that are set |
| MtuSearch.Discover | Source/Layer3Network.c:1438-1505 | for any path a size that was echoed, or 0, in at most 11 probes; on a path with a fixed limit that limit within 8..1472; the status that follows |
| ProbeStats.Stats.RecordResult | Source/ProtocolProbe.c:125-166 | counters modulo 2^32, ids, least, greatest, average and ring stay those of the recorded probes |
| ProbeStats.Stats.CountersAddUp | Source/ProtocolProbe.c:125-166 | Sent is Received plus Lost modulo 2^32; over fewer than 2^32 probes all are exact and NextSeqId is Sent plus 1, wrapping |
| ProbeStats.Stats.TimesMean | Source/ProtocolProbe.c:145-166 | received, least, greatest, last and average time in terms of the times of the probes that passed |
| ProbeStats.PassedConcat | Source/ProtocolProbe.c:147-147 | the times are those of the probes of status 1, one after the other |
| ProbeStats.SumConcat | Source/ProtocolProbe.c:154-154 | the total adds up over any division of the times |
| ProbeStats.LeastIsMinimum | Source/ProtocolProbe.c:157-159 | the least time is a minimum of the passed times |
| ProbeStats.GreatestIsMaximum | Source/ProtocolProbe.c:160-162 | the greatest time is a maximum of the passed times |
| ProbeStats.AverageFits | Source/ProtocolProbe.c:155-155 | the cast of the average to 32 bits loses nothing |
| ProbeStats.Stats.constructor | Source/ProtocolProbe.c:1350-1360 | the initial object stands for no probes |
| ProbeStats.Stats.Newest | Source/Main.c:686-706 | the page reads the i-th newest result for every one it shows |
| ProbeStats.ReaderIndexIs | Source/Main.c:698-706 | the index expression, unsigned wrap-around included, is the slot of the i-th newest result |
| EventLog.Log.constructor | Source/Logger.c:20-28 | an empty log |
| EventLog.Log.Add | Source/Logger.c:39-60 | one more entry behind all others |
| EventLog.Log.Clear | Source/Logger.c:197-204 | an empty log again |
| EventLog.Log.GetEntry | Source/Logger.c:174-192 | the i-th oldest of the last 128 entries since the last clear, NULL beyond |
| EventLog.SlotOf | Source/Logger.c:190-191 | the position arithmetic finds the entry's slot |
| Ring.StoreNext | Source/Logger.c:48-56 | writing the next slot keeps the newest entries of the sequence in the ring |
| Ring.NextSlot | Source/Logger.c:56-56 | moving the head on by one is counting modulo the size |
| Dhcp.GetMessageType | Companion/services/dhcp_manager.py:153-168 | the walk over any bytes terminates with the walk function's value |
| Dhcp.WalkFindsType | Companion/services/dhcp_manager.py:153-168 | on every well-formed list, with or without END, the value of the first one-byte option 53, else 0 |
| Dhcp.FirstTypeIsFirst | Companion/services/dhcp_manager.py:165-166 | that value is the first such option's |
| Dhcp.FirstTypeNone | Companion/services/dhcp_manager.py:168-168 | it is 0 when there is no such option |
| Dhcp.BuildResponse | Companion/services/dhcp_manager.py:199-240 | the 300 bytes: fixed fields in place and zero elsewhere, and looking an option up gives message type, server, lease time as a number, mask, router and name server |
| Dhcp.ReplyReadsBack | Companion/services/dhcp_manager.py:199-240 | the same of the reply as a byte string, and the server's own walk finds the message type |
| Dhcp.LookupList | Companion/services/dhcp_manager.py:199-240 | on every well-formed option list a lookup gives the first option of that code |
| QuickScan.ScanResult.ApplyDiagnosis | Source/QuickScan.c:302-394 | each diagnosis is given if and only if its condition on the layer results holds, the number of layers with warnings included |
| QuickScan.CountsMean | Source/QuickScan.c:197-258 | the counters of a layer in terms of the outcomes of its two tests |
| QuickScan.ScanResult.ScanWithScreen | Source/QuickScan.c:610-712 | the written-out driver computes the layer results and their diagnosis |
| QuickScan.ScanResult.ScanSilently | Source/QuickScan.c:793-837 | the loop computes the same results and diagnosis |
| QuickScan.NoAdjacentFailures | Source/QuickScan.c:624-679 | L2 to L4 are skipped if and only if the layer below failed, and tested otherwise, so no two adjacent layers of L1 to L4 are both Fail; L1 and L7 are always tested |
| QuickScan.BlamesLowestFailure | Source/QuickScan.c:315-358 | a diagnosis names a layer if and only if that is the lowest one that failed |
| QuickScan.StatusMeaning | Source/QuickScan.c:148-172 | when a layer is Fail, Warn or Pass, in terms of the outcomes of its tests |

## Left out

- PacketParser.ParsePacket: takes for granted that the IPv4 header lies in the frame and that TotalLength covers it; the code compares neither (Source/PacketParser.c:227-240).
- FrameFilter.ReceiveResponse: the card is taken to report a frame and a media header that lie in the 1600-byte buffer; a missing or stopped SNP and the frame counts of the diagnostic text are not modelled.
- FrameFilter.MatchVersusParse: frames of up to 1600 bytes, the size of the receive buffer.
- Smbios.SmbiosTables.ParseTables: the fields of the first processor and of each memory device with a slot are taken to lie in readable memory, as the code takes it.
- Smbios.CopyString: the fixed CHAR8 field is represented by the string it holds.
- ProbeStats.Stats.RecordResult: not the pass that would wrap Received to 0; the code then divides by it.
- EventLog.Log.Add: the message is a string; formatting and the cut to 128 characters are not modelled.
- DnsNames.DecodeName: Python's recursion limit is the parameter `depth`.
- DnsResponder.FindAddress: the records are the static ones, all with the local address, whose text is the canonical dotted form.
- Dhcp.BuildResponse: addresses come as four bytes; the choice between OFFER and ACK addresses is not modelled.
- MtuSearch.Discover: a ping is a function of probe number and size; texts and timing are not modelled.
- NicDiscovery.Deduplicate: an entry holds the fields the block reads or writes.
- DnsProofs.AQueryAnswered: the question's name is uncompressed, and its labels have 1 to 191 bytes; so for PtrQueryAnswered.
- ControlEndpoints.ControlServer.HandleCommand: a reply that cannot be encoded or sent is lost; the network of the protocol model may lose it.
- ControlEndpoints.CompanionLink.Prepare: errors of the send and receive paths other than a timeout are one status each; StatusMsg and MessageId (counted, never sent) are not modelled, nor is a NULL link.
- ControlProtocol.InvariantHolds: one client and one server, no restart of the companion.
- Pointers into the frame and address arguments are offsets and values: aliasing between a builder's buffer and its inputs is not modelled.
- HTONS on a little-endian machine is a big-endian store.
- SMBIOS types 0, 1 and 2 and the search for the entry point: fixed lists of string copies.
- QuickScan texts and the TotalTests sum, which counts skipped tests twice (Source/QuickScan.c:700-707).
- Link creation and destruction, service binding, events and polling loops: firmware calls.
- ARP exchange and echo payload formats, which are fixed layouts.
- Sockets, threads, subprocesses, screens, reports and name tables.
