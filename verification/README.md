# ipscout: a verified model

ipscout asks questions of a network: it sends echo requests, SNMP reads, TCP SYNs and DHCP watches, and decides which
answer belongs to which question. This project models the part of it that never touches a socket and proves what that
part promises: byte codecs that undo each other, and the state machines behind the transports, the conversations, the
captures and the pool.

Expressions of the original are functions here. Its loops are methods with invariants, and its objects with mutable
fields are classes; each method is tied to a function of its inputs or of the old state, as in
`View() == Step(old(View()), event, here)`, and the theorems are about those functions, over every input and every run.

| file | what it models |
|---|---|
| Bytes | bytes, failure values, big- and little-endian fields |
| Oid, SnmpBer, SnmpBerReader, SnmpBerTheorems | the SNMP codec (ITU-T X.690 sections 8.1.3, 8.3 and 8.19; RFC 2578 section 3.5) |
| IpHeaders | IPv4 and IPv6 headers laid out field by field (RFC 791 section 3.1, RFC 8200 section 3) |
| Checksum, Packet, TcpSyn | RFC 1071 checksums, ICMP echo and quoted probes (RFC 792, RFC 4443 section 3.3), TCP SYN |
| Transport, TransportTheorems, ProbeTheorems | which probe an answer belongs to: blocking and asynchronous transports |
| Snmp, SnmpTheorems, SnmpRequests, SnmpAgent | one SNMP read of the system group |
| Bootp, Dhcp, DhcpTheorems | DHCP replies in captured frames, and the watch over them |
| Pool | bounded workers over one iterator |
| Netlink, NeighboursLinux | the Linux neighbour table |
| BsdRoute, NeighboursMacos | the macOS neighbour table |
| Bpf, Mtu, Banner, Sweep | captured frames, path-MTU bisection, the first line of a greeting, the sweep budget |

## Where the code and its documentation part

- `encode_message` says its integers must be non-negative. Negative ones encode and come back too; the round trip is
  exact for all of 40 signed bits (`SnmpBerTheorems.MessageRoundTrip`).
- `checksum` says its result is the RFC 1071 sum of any data. Two carry folds give that for every word total below
  2^32 + 65535 and not for that total, which 131078 bytes already reach; no IP datagram does
  (`Checksum.TwoFoldsSuffice`, `Checksum.ChecksumBoundIsSharp`). For any data at all it holds exactly when the second
  fold survives the cut to 16 bits (`Checksum.ChecksumExactly`).
- `_read_address_attributes` says a later attribute overwrites an earlier one only when it decodes. That holds if and
  only if no link address that decodes is followed by a last one that does not; otherwise the entry loses its link
  address (`NeighboursLinux.DocumentedUnlessErased`) and with it its place in the listing
  (`NeighboursLinux.AnEntryIsLost`).
- `DhcpSession.result` says calling it again returns the same answer. Its test that nothing is recorded is made outside
  the lock, so of two overlapping calls the second stores its own answer over the first. Within one window, with the
  default times and offers at 1 and 13 seconds, the two answers differ (`DhcpTheorems.AnAnswerIsReplaced`, from real
  frames). A recorded answer is final if and only if no call that found nothing recorded is still on its way, or the
  reader can absorb no more frames and all that was found is recorded (`DhcpTheorems.ResultsAreFixed`).
- `DhcpReply.from_frame` says truncated input is discarded. A bare packet cut below its own total length is read as an
  Ethernet frame, and one from 8.0.x.y (or from 129.0.x.y to 8.0.x.y) as one that carries IPv4: then what is read as
  the packet decides, and it can be an offer the whole frame does not make (`Bootp.CutFramesSayLess`,
  `Bootp.ACutGivesAnotherReply`). Any other cut leaves the same reply, its type perhaps gone, or none.
- `_ip_payload` says its guards keep an Ethernet frame from being read as a bare packet. Some frames pass them all
  (`Bootp.SomeFramesPassForPackets`); the frames read correctly are exactly the others (`Bootp.LinkHeaderIsSkipped`).
- The asynchronous transport documents the same probing contract as the blocking one, but answers by token alone: an
  echo reply with the right token and a wrong sequence number resolves its probe where the blocking transport waits on
  (`TransportTheorems.AgreesWithBlocking`, `TransportTheorems.MisnumberedRepliesExist`).
- `build_message` does not pad, and `iter_messages` steps by the aligned length: two built messages sent in one chunk
  are both read exactly when the first body is a multiple of four bytes (`Netlink.MessagesNeedAlignment`).

## Model

| member | source | states |
|---|---|---|
| Oid.ArcsRoundTrip | src/ipscout/snmpber.py:168-177 | every valid arc list (2 to 128 arcs below 2^32, SMI roots) encodes to a body that decodes to the same arcs |
| Oid.BodyRoundTrip | src/ipscout/snmpber.py:200-233 | every accepted body decodes to valid arcs and is byte for byte their only encoding, so decoding is a bijection |
| Oid.SubIdentifiers | src/ipscout/snmpber.py:211-233 | the octet loop gives the same sub-identifiers, or the same refusal, as the recursive reading from any point |
| Oid.Base128Octets | src/ipscout/snmpber.py:139-145 | the loop that collects seven-bit groups in reverse produces the base-128 form |
| Oid.DecodeThenEncode | src/ipscout/snmpber.py:180-208 | decoding any accepted body to text and encoding the text returns the identical body |
| Oid.EncodeThenDecode | src/ipscout/snmpber.py:148-177 | encoding then decoding text is the identity if and only if no arc has a leading zero, and always keeps the arcs |
| Oid.TextOfArcs | src/ipscout/snmpber.py:207-208 | the text written for any arc list splits, parses and matches the accepted pattern again |
| Oid.SplitOfJoin | src/ipscout/snmpber.py:168-168 | splitting joined arcs at the dots gives the arcs back |
| Oid.JoinOfSplit | src/ipscout/snmpber.py:168-168 | joining what a split gave is the original text |
| Oid.DecodedIsReportable | src/ipscout/models.py:1494-1494 | every identifier the decoder can produce is one the result record's own pattern accepts |
| Oid.AcceptedBodies | src/ipscout/snmpber.py:180-233 | a body is accepted if and only if it encodes 2 to 128 arcs below 2^32 under a root 0 or 1 with a second arc below 40 or under root 2, the first two together as 40 times the first and the second |
| SnmpBerTheorems.IntegerRoundTrip | src/ipscout/snmpber.py:131-136 | the body written for any integer, negative ones included, reads back as it |
| SnmpBerTheorems.IntegerIsShortest | src/ipscout/snmpber.py:131-136 | no other body denoting the same integer is as short |
| SnmpBerTheorems.FiveOctets | src/ipscout/snmpber.py:327-332 | an integer's body fits the parser's five octets if and only if it is a 40-bit signed number |
| SnmpBerTheorems.LengthOctets | src/ipscout/snmpber.py:120-124 | below 2^32 a length takes at most five octets, and above 127 announces its own octet count |
| SnmpBerTheorems.ReadsTlv | src/ipscout/snmpber.py:286-313 | an encoded element is read back with its tag and body and exactly what followed it left over |
| SnmpBerTheorems.ElementShrinks | src/ipscout/snmpber.py:286-313 | an element read from any bytes is never longer re-encoded, and as long only if identical |
| SnmpBerTheorems.MessageRoundTrip | src/ipscout/snmpber.py:236-249 | parsing an encoded message gives it back if and only if its integers fit 40 signed bits, its names are canonical and its body is below 2^32 bytes |
| SnmpBerTheorems.NormalForm | src/ipscout/snmpber.py:354-385 | whatever the parser accepts re-encodes, parses to the same message, and the encoding is the one shortest byte string that does |
| SnmpBerReader.Reader.Next | src/ipscout/snmpber.py:286-313 | the cursor moves past exactly the element the specification cuts off, or stays where it was with the same error |
| SnmpBerReader.Reader.ExpectTag | src/ipscout/snmpber.py:315-325 | an element of another tag is refused and a missing one reported; otherwise its body is returned and the cursor is past it |
| SnmpBerReader.Reader.Integer | src/ipscout/snmpber.py:327-332 | reads a signed integer of one to five octets, or refuses |
| SnmpBerReader.Bindings | src/ipscout/snmpber.py:340-351 | the binding loop returns the specification's list, or its first error |
| SnmpBerReader.Parse | src/ipscout/snmpber.py:354-385 | the nested cursors parse exactly the specified message, with the same error in every refused case |
| Checksum.TwoFoldsExactly | src/ipscout/packet.py:243-246 | two carry folds give the one's-complement sum if and only if what they leave uncarried is itself zero in one's complement |
| Checksum.TwoFoldsSuffice | src/ipscout/packet.py:243-246 | two folds are right for every total below 2^32 + 65535 and wrong at that total |
| Checksum.ChecksumIsOnesComplement | src/ipscout/packet.py:240-246 | up to 131076 bytes the checksum is the complement of the end-around-carry sum of RFC 1071 section 1 |
| Checksum.ChecksumExactly | src/ipscout/packet.py:240-246 | for any data the checksum is the complement of the RFC's sum if and only if the second fold's cut to 16 bits drops nothing that counts; below 2^47 bytes, if and only if it drops nothing |
| Checksum.ChecksumBoundIsSharp | src/ipscout/packet.py:208-246 | a buffer of 131078 bytes whose checksum is not that sum |
| Checksum.ReceiverAccepts | src/ipscout/packet.py:228-235 | a buffer with its checksum placed in a zeroed even field sums to zero, and only that value, or 0xFFFF for 0, does so |
| Packet.PayloadRoundTrip | src/ipscout/packet.py:145-176 | bytes read as a payload if and only if they are the bytes of that payload and it is valid |
| Packet.RequestFits | src/ipscout/packet.py:389-407 | a request is built exactly when its fields fit, carries the token, holds at least the minimum payload and never exceeds one IP datagram |
| Packet.RequestChecksumVerifies | src/ipscout/packet.py:389-407 | every IPv4 echo request built carries a checksum its receiver accepts |
| Packet.RequestOnTheWire | src/ipscout/packet.py:395-407 | type 8 or 128, no code, the identifier and sequence, the mark IPSCOUT1, the token and zeros; no checksum on IPv6 |
| Packet.CutRequestReads | src/ipscout/packet.py:615-649 | a request cut to any length from 8 on reads with its sequence and identifier, and with its token exactly from 24 on |
| IpHeaders.Ipv4Fields | src/ipscout/packet.py:444-447 | where version, length, total, fragment, protocol, source and destination stand in an IPv4 header of any length |
| IpHeaders.Ipv6Fields | src/ipscout/packet.py:655-657 | where next header, source and destination stand in an IPv6 header |
| IpHeaders.EveryIpv4Header | src/ipscout/packet.py:444-447 | any bytes that say version 4 and their own length are such a header |
| Packet.FirstByteDecides | src/ipscout/packet.py:598-602 | a message is a Time Exceeded by its first byte alone, 3 or 11, with or without the outer header |
| Packet.QuoteReads | src/ipscout/packet.py:652-739 | a Time Exceeded message (type 11 or 3), its outer header kept or stripped, gives its quoted request and the quoted IP header's destination field, and nothing unless that header's protocol is 1 or 58 |
| Packet.QuotedProbeIsRecovered | src/ipscout/packet.py:690-739 | behind any quoted IPv4 header with options or IPv6 header, laid out field by field, the probe is recovered if and only if the protocol field is ICMP's number, with that header's destination, its sequence and identifier, and its token exactly from 24 bytes on |
| Packet.ReplyIsRecognised | src/ipscout/packet.py:498-545 | the peer's echo of a built request, checksum and identifier rewritten, reads as a reply with the sequence and token sent |
| TcpSyn.SynOnTheWire | src/ipscout/tcpsyn.py:105-138 | a built SYN is an IPv4 header of 20 bytes, total 40, protocol 6, with both addresses, then both ports, the sequence number, data offset 5, exactly SYN, and window 65535 |
| TcpSyn.SynChecksumsVerify | src/ipscout/tcpsyn.py:105-138 | the IP header and the TCP header over the pseudo-header of its addresses both sum to zero in every SYN built |
| TcpSyn.AnswersAreRead | src/ipscout/tcpsyn.py:205-244 | behind an IP header of any length any segment, whatever its window, sequence numbers, options and data, is judged by its own ports and flags, only from the scanned host; one cut short answers nothing |
| TcpSyn.ProbeIsNoAnswer | src/ipscout/tcpsyn.py:205-216 | the scan's own SYN, seen again on the raw socket, is never an answer |
| Transport.Await | src/ipscout/transport_posix.py:812-833 | the blocking loop stops at the first read that ends the wait and returns what that read says; otherwise none did |
| Transport.AsyncTransport.SetResult | src/ipscout/transport_posix.py:949-969 | a future that is done stays as it is; a pending one is set |
| Transport.AsyncTransport.SettleError | src/ipscout/transport_posix.py:959-969 | an error completes a probe only when it names exactly one registered one |
| Transport.AsyncTransport.SettleErrors | src/ipscout/transport_posix.py:936-942 | a drain settles every queued error in order and says whether the queue held anything |
| Transport.AsyncTransport.OnDatagram | src/ipscout/transport_posix.py:944-957 | a reply goes to the probe with its token, anything else to whatever probe a quoted error names |
| Transport.AsyncTransport.Send | src/ipscout/transport_posix.py:971-982 | a second attempt exactly when the first was refused with something queued, the errors of a refused one settled in order first, and refused only after an empty queue or twice |
| Transport.AsyncTransport.Register | src/ipscout/transport_posix.py:1010-1011 | a fresh token enters the table pending and nothing else changes |
| Transport.AsyncTransport.Abandon | src/ipscout/transport_posix.py:1016-1019 | a timeout cancels exactly its own future |
| Transport.AsyncTransport.Finish | src/ipscout/transport_posix.py:1013-1024 | a probe returns the arrival its future holds, or nothing if it was cancelled or its send was refused, and its entry leaves the table either way |
| TransportTheorems.EveryRunIsSound | src/ipscout/transport_posix.py:944-1024 | in every run: a future is set at most once, by a reply with its token or an error about it alone; every arrival returned was such; the table holds exactly the probes registered and not returned |
| TransportTheorems.StepIsSound | src/ipscout/transport_posix.py:936-1024 | each single event keeps all of that |
| TransportTheorems.ReturnsWhatItHolds | src/ipscout/transport_posix.py:1013-1024 | what is returned is the arrival that was set, nothing once cancelled, nothing when the send was refused; a pending probe cannot return otherwise |
| TransportTheorems.AnswersAreFinal | src/ipscout/transport_posix.py:949-969 | a set future keeps its value through any event until its probe returns that arrival |
| TransportTheorems.AgreesWithBlocking | src/ipscout/transport_posix.py:835-844 | with any number of probes outstanding a datagram resolves one exactly as the blocking rule says, but for ambiguous errors and misnumbered replies |
| TransportTheorems.StreamSettles | src/ipscout/transport_posix.py:936-969 | over any stream of datagrams and drained errors the future of the only probe outstanding holds what the first read to settle it says |
| TransportTheorems.SameAnswerAsBlocking | src/ipscout/transport_posix.py:812-844 | over any such stream the read that ends the blocking wait is the one that settles the future if and only if no misnumbered reply comes before it and it is not an error with nothing queued, and both then say the same |
| Transport.EndAtIsFirst | src/ipscout/transport_posix.py:812-833 | the place the blocking loop is proved to stop at is the first read that ends its wait |
| TransportTheorems.MisnumberedRepliesExist | src/ipscout/transport_posix.py:527-534 | a concrete reply the asynchronous transport takes and the blocking one does not |
| ProbeTheorems.EchoReachesItsProbe | src/ipscout/transport_posix.py:944-954 | the peer's echo of a request resolves the probe that sent it and no other, whatever else is outstanding, and the blocking transport takes it too |
| ProbeTheorems.QuoteReachesItsProbe | src/ipscout/transport_posix.py:537-553 | a router quoting any 8 or more bytes of a request behind its IP header resolves its probe and no other if and only if the token is quoted or no other registered probe could be meant; otherwise nothing changes |
| ProbeTheorems.OtherErrorsConcern | src/ipscout/transport_posix.py:537-553 | an error without a destination is not compared with the target, and one without an arrival needs no hop limit |
| ProbeTheorems.ReturnsItsAnswer | src/ipscout/transport_posix.py:1013-1024 | whatever happens to other probes meanwhile, a probe whose future was set returns just that |
| ProbeTheorems.EchoIsReturned | src/ipscout/transport_posix.py:944-1024 | from the request's bytes to the probe's result: its peer's echo arrives, anything else follows, and the probe returns that arrival |
| ProbeTheorems.HopIsReturned | src/ipscout/transport_posix.py:944-1024 | likewise a router that let the probe expire is returned as that hop when its quote names the probe alone |
| ProbeTheorems.UndeliveredIsReturned | src/ipscout/transport_posix.py:936-969 | an error that says the request was not delivered ends its probe without an answer, and no other |
| Snmp.Listen | src/ipscout/snmp.py:213-234 | sets aside what is malformed or answers another request, keeps the last reason, and leaves later arrivals queued |
| Snmp.Converse | src/ipscout/snmp.py:330-346 | result, requests and datagrams sent are those of the recursive conversation, whatever arrives |
| SnmpTheorems.ReplyFieldsAgree | src/ipscout/models.py:1498-1507 | what is read from any reply satisfies the record's rule on state, values and error |
| SnmpTheorems.ConversationIsBounded | src/ipscout/snmp.py:330-346 | at most one request for each value asked about, each re-ask dropping one value and drawing the next id, and every result satisfying the record's rule |
| SnmpTheorems.ValuesAreCarried | src/ipscout/snmp.py:275-306 | every value reported is carried, with its own name and type, by a binding of a successful reply in the version asked |
| SnmpTheorems.HeardWasDelivered | src/ipscout/snmp.py:213-234 | a reply heard arrived as a datagram and carries the id asked with |
| SnmpTheorems.ReportedValuesWereAsked | src/ipscout/snmp.py:335-345 | any reported value comes from a delivered message that answers the last request and was still asked for in it |
| SnmpTheorems.ListenEnds | src/ipscout/snmp.py:213-234 | a listener that hears nothing saw only datagrams, all set aside, and keeps the last reason; what it leaves queued is the tail of what arrived |
| SnmpTheorems.StatesAreEarned | src/ipscout/snmp.py:309-317 | REFUSED and UNREACHABLE only after the network said so, SILENT at the first request exactly when nothing arrived, and an error naming a set-aside datagram is about the last one to arrive |
| SnmpTheorems.EndingDecides | src/ipscout/snmp.py:309-346 | every conversation, re-asks included, reports exactly what ended it: REFUSED for a closed port, UNREACHABLE with its reason, SILENT or a "no valid reply" at the deadline, what the deciding reply says, and an empty ANSWERED only with nothing left to ask |
| SnmpTheorems.StatesAreEndings | src/ipscout/snmp.py:309-346 | REFUSED, UNREACHABLE and SILENT each if and only if that ended it, ANSWERED only from a reply or with nothing left to ask |
| SnmpTheorems.AcceptedExactly | src/ipscout/snmp.py:249-306 | a reply answers what was asked if and only if it is a GetResponse in the version asked, without error, binding just those names, each with its own type and a readable value or, under SNMPv2c, an exception |
| SnmpTheorems.RefusalExactly | src/ipscout/snmp.py:320-327 | a value is dropped and the rest asked for again exactly on SNMPv1's noSuchName in a response whose index points at it |
| SnmpTheorems.SystemGroup | src/ipscout/snmp.py:109-124 | the names and types of the four values, as RFC 1213 section 6.2 and RFC 2578 section 7.1 number them |
| SnmpTheorems.NoiseChangesNothing | src/ipscout/snmp.py:223-233 | without everything the listeners set aside - malformed datagrams, replies to other requests, repeated replies to earlier requests of this conversation - it makes the same requests, hears the same answer and reports the same, but for SILENT where it reported an ERROR |
| SnmpRequests.SmallMessageIsUnderstood | src/ipscout/snmpber.py:354-385 | any message about the system group that fits a datagram parses back to itself |
| SnmpRequests.RequestIsUnderstood | src/ipscout/snmpber.py:252-273 | every request a conversation can make parses back to itself |
| SnmpRequests.MessageLayout | src/ipscout/snmpber.py:236-249 | the elements of a message in order, under the tags 30, 02 and 04 |
| SnmpRequests.BindingLayout | src/ipscout/snmpber.py:247-247 | a binding is a 30 of a 06 and its value |
| SnmpRequests.RequestLayout | src/ipscout/snmpber.py:252-273 | a request is an A0, version 0 or 1, status and index zero, each name bound to 05 |
| SnmpRequests.LengthLayout | src/ipscout/snmpber.py:120-124 | one octet below 128, then 81 to 84 and that many octets, most significant first |
| SnmpRequests.NameOctets | src/ipscout/snmpber.py:148-177 | the eight octets of each value's name |
| SnmpAgent.TicksExactly | src/ipscout/snmp.py:237-246 | an uptime is accepted if and only if it has 1 to 5 octets, is not negative and fits 32 bits, four octets never being negative |
| SnmpAgent.TicksRead | src/ipscout/snmp.py:237-246 | an uptime in its shortest signed form and in four unsigned octets reads as the same seconds |
| SnmpAgent.ReplyIsReported | src/ipscout/snmp.py:293-306 | a reply binding all an agent has is reported as exactly that, exceptions as absent values |
| SnmpAgent.AgentIsReported | src/ipscout/snmp.py:320-346 | a conversation with a correct agent, SNMPv1 refusals included, reports exactly the values the agent has |
| SnmpAgent.AgentIsHeardThroughNoise | src/ipscout/snmp.py:213-234 | and still does whatever else arrives, as long as what the listeners heed is the agent's replies |
| SnmpAgent.RepeatedRepliesAreReported | src/ipscout/snmp.py:228-233 | an agent whose every reply arrives twice is reported just the same, given distinct request ids |
| SnmpAgent.AgentBytesAreReported | src/ipscout/snmp.py:330-346 | encoder, parser and conversation together: the bytes an agent encodes are reported as exactly the values it has, whichever those are, under either version |
| Bootp.MessageType | src/ipscout/bootp.py:209-242 | the option loop is the recursive walk |
| Bootp.MessageTypeIsDeclared | src/ipscout/bootp.py:209-242 | the type found is the first message-type option that says anything, whatever pads, options and trailing bytes surround it, whether the list ends with END, with the bytes or in a truncated option; without the cookie there is none |
| Bootp.EveryAreaIsOne | src/ipscout/bootp.py:222-241 | any bytes after the fixed part are of one of those forms |
| Bootp.CutType | src/ipscout/bootp.py:225-236 | a body cut anywhere declares the type the whole body declares, or none |
| Bootp.CutFramesSayLess | src/ipscout/bootp.py:345-396 | any frame cut anywhere gives the whole frame's reply, its type perhaps gone, or none, unless it is a bare packet cut below its own total length whose source address begins as an Ethernet type; then exactly what stands behind the supposed link header decides |
| Bootp.ACutGivesAnotherReply | src/ipscout/bootp.py:121-166 | a bare packet from 8.0.69.0 that gives no reply whole and an offer without its last byte |
| Bootp.OfferFrameIsRead | src/ipscout/bootp.py:345-396 | a DHCPACK laid out byte by byte for any client and address is read as exactly that offer |
| Bootp.FixedReads | src/ipscout/bootp.py:371-394 | a message laid out field by field as RFC 2131 section 2 orders it is an offer if and only if it is a server's reply handing an Ethernet client an address, read with its own fields |
| Bootp.DatagramReads | src/ipscout/bootp.py:183-206 | behind an IPv4 header of any length a UDP body is read if and only if it is no later fragment and the ports are a server's |
| Bootp.ReplyIsRead | src/ipscout/bootp.py:345-396 | a whole frame, bare, Ethernet or tagged, whatever follows its fixed part, gives exactly the message's client, address, server, transaction and declared type, if and only if it is a server's offer |
| Bootp.KnownTypes | src/ipscout/bootp.py:245-251 | message types 1 to 8 are known, and no other number is |
| Bootp.BareExactly | src/ipscout/bootp.py:157-166 | a packet passes for bare if and only if it is UDP and its total length covers its header and fits the bytes |
| Bootp.OthersAreNotBare | src/ipscout/bootp.py:157-166 | nothing of another version or too short for a header does |
| Bootp.LinkHeaderIsSkipped | src/ipscout/bootp.py:121-154 | a packet is found behind an Ethernet header, tagged or not, if and only if the frame does not pass for a bare packet, and then gives the same reply |
| Bootp.SomeFramesPassForPackets | src/ipscout/bootp.py:157-166 | frames with a unicast Ethernet header that are read as bare packets |
| Dhcp.MergeOffers | src/ipscout/bootp.py:420-426 | the loop with its set is the fold that keeps each address where it was first seen |
| Dhcp.OffersFromFrames | src/ipscout/bootp.py:463-473 | the offers of a frame list, one merge a frame |
| Dhcp.OffersAreListedOnce | src/ipscout/bootp.py:463-473 | an address is listed if and only if some accepted frame offers it, and never twice |
| Dhcp.NarrowingOnlyRemoves | src/ipscout/bootp.py:429-473 | asking for some message types lists exactly the addresses a reply of such a type offers, and never more than without |
| Dhcp.OfferIsForItsClient | src/ipscout/bootp.py:463-472 | a captured message offers this machine its address if and only if it is a server's offer whose hardware address is this machine's, under a type asked for |
| Dhcp.OffersAreTheClients | src/ipscout/bootp.py:463-473 | so the addresses listed are exactly those some captured message offers this machine |
| Dhcp.OffersOnlyGrow | src/ipscout/bootp.py:399-426 | more frames only add addresses at the end |
| Dhcp.AbsorbedIsTheFold | src/ipscout/dhcp.py:368-388 | the constant-time step keeps the record equal to the fold over every frame absorbed, without duplicates and with its set |
| Dhcp.WakesAtTheFirstQuietMoment | src/ipscout/dhcp.py:223-227 | the quiet rule is false before the wake time and true from it on; it is never past the deadline, and a later sighting never brings it forward |
| Dhcp.WaitForQuiet | src/ipscout/dhcp.py:471-492 | every sleep ends at the first quiet moment, and the wait stops at the first look that is finished or quiet |
| Dhcp.DhcpSession.Check | src/ipscout/dhcp.py:349-354 | the reader receives once more exactly when it is not to stop and the deadline has not come |
| Dhcp.DhcpSession.Absorb | src/ipscout/dhcp.py:368-388 | the session's fields after a frame are the record's next step; a retransmission does not restart the window |
| Dhcp.DhcpSession.ReaderEnds | src/ipscout/dhcp.py:363-366 | the reader's last act finishes the session |
| Dhcp.DhcpSession.StopEnds | src/ipscout/dhcp.py:494-504 | stop() finishes the session whether or not the reader has ended |
| Dhcp.DhcpSession.Ask | src/ipscout/dhcp.py:464-464 | a call of result() waits exactly when nothing is recorded at that moment, and changes nothing |
| Dhcp.DhcpSession.Look | src/ipscout/dhcp.py:477-486 | a wait is over exactly when the session has finished or the quiet rule holds; otherwise the call sleeps to the wake time |
| Dhcp.DhcpSession.Store | src/ipscout/dhcp.py:466-467 | a call past its wait stores all that is found, whatever was stored meanwhile |
| Dhcp.DhcpSession.Return | src/ipscout/dhcp.py:469-469 | a call returns what is stored when it returns |
| Dhcp.OfferIterator.Next | src/ipscout/dhcp.py:412-422 | yields the next recorded address, or stops having replayed all of them |
| DhcpTheorems.QuietMeansQuiet | src/ipscout/dhcp.py:477-486 | a wait ends only when the session has finished, at the deadline, or when some frame brought an address and none has within `settle` |
| DhcpTheorems.SightingMoves | src/ipscout/dhcp.py:374-388 | the last sighting is the time of the last frame to bring a new address |
| DhcpTheorems.ReaderAfter | src/ipscout/dhcp.py:349-366 | only the last frame absorbed can have come at the deadline or later, and nothing finishes a session before its deadline but a stop |
| DhcpTheorems.SleepsAgain | src/ipscout/dhcp.py:475-492 | a call that sleeps again has seen a new address since its last look, so it sleeps at most once for each plus once, and never past the deadline |
| DhcpTheorems.NobodyHinders | src/ipscout/dhcp.py:464-492 | whatever another thread does, a call's next step stays open to it, no later than before |
| DhcpTheorems.CallsReturn | src/ipscout/dhcp.py:464-492 | from every sound state each call of result() returns by at most three steps of its own, at the deadline at the latest |
| DhcpTheorems.WaitsEnd | src/ipscout/dhcp.py:464-467 | a call that found nothing recorded stores all that is found when its wait ends |
| DhcpTheorems.SessionFindsItsOffers | src/ipscout/dhcp.py:368-388 | a session finds exactly the addresses captured messages offer its own hardware address |
| DhcpTheorems.SessionStepIsSound | src/ipscout/dhcp.py:368-492 | every single step of the reader and of any number of result() calls keeps the record, the waits and the answers sound |
| DhcpTheorems.IteratorsGoOn | src/ipscout/dhcp.py:412-422 | an iterator goes on exactly when an address is left or the session has finished, yields the next address if one is left, and otherwise stops |
| DhcpTheorems.EveryWatchIsSound | src/ipscout/dhcp.py:368-492 | in every interleaving of frames, closing, result() calls and any number of iterators: the record is the fold of the frames, at most one of them from the deadline or later; every wait ended rightly and slept at most once per new address plus once; every answer covers all that was offered when some wait ended and extends the answers before it; every iterator has replayed a prefix, and one that stops has replayed all |
| DhcpTheorems.OnlyEarlierAskersReplace | src/ipscout/dhcp.py:464-468 | a recorded answer is replaced only by a call that passed the test before it was recorded |
| DhcpTheorems.FinalIsFixed | src/ipscout/dhcp.py:343-366 | once nobody is left to store, or the reader can absorb nothing more and all is recorded, no continuation changes the recorded answer |
| DhcpTheorems.OvertakingReplaces | src/ipscout/dhcp.py:343-469 | otherwise the late call's store replaces it, after one more real offer if the reader still takes one |
| DhcpTheorems.ResultsAreFixed | src/ipscout/dhcp.py:343-469 | so a recorded answer is final, over every continuation, if and only if no call that found nothing recorded is on its way or the reader can absorb nothing more and all that was found is recorded, as long as one address is not offered yet |
| DhcpTheorems.TwoAnswersDiffer | src/ipscout/dhcp.py:343-469 | for any two addresses a run within one window, from real frames, in which the second of two overlapping calls returns more than the first |
| DhcpTheorems.AnAnswerIsReplaced | src/ipscout/dhcp.py:87-96 | that run with the default window and quiet time |
| Pool.StepIsSound | src/ipscout/pool.py:116-122 | a worker's move keeps every taken item finished once or held by exactly one worker, and no worker stops while items remain |
| Pool.StepMakesProgress | src/ipscout/pool.py:116-122 | each move strictly reduces the moves left |
| Pool.EveryScheduleIsSound | src/ipscout/pool.py:112-126 | under every schedule all that holds, no more items are in flight than workers, and at most 3 moves an item and one a worker are made |
| Pool.DoneMeansFinished | src/ipscout/pool.py:125-126 | when every worker has stopped the items finished are a permutation of all items |
| Pool.GatherBounded | src/ipscout/pool.py:74-126 | the results are work's results over a permutation of the items, or a refusal exactly when concurrency is below 1 |
| Pool.UniqueIsUnique | src/ipscout/banner.py:226-226 | the hosts are exactly those given, each once |
| Pool.UniqueOnlyGrows | src/ipscout/banner.py:226-226 | each host keeps the place of its first mention |
| Pool.GatherByHost | src/ipscout/banner.py:228-233 | the rebuilt mapping has every distinct host in input order with its own result, however the pool completed them |
| Netlink.IterMessages | src/ipscout/netlink.py:130-154 | the position loop is the recursive walk, every slice in bounds, and terminates |
| Netlink.IterAttributes | src/ipscout/netlink.py:157-182 | likewise for attributes behind a header of any size |
| Netlink.AttributesRoundTrip | src/ipscout/netlink.py:185-204 | walking any concatenation of built attributes gives back the same types and values |
| Netlink.WalksBuiltMessage | src/ipscout/netlink.py:108-127 | a built message is read back, and reading goes on at the next multiple of four |
| Netlink.HeaderSays | src/ipscout/netlink.py:127-127 | length, type, flags and sequence stand where a reader finds them, the port id zero |
| Netlink.AlignedIsNext | src/ipscout/netlink.py:84-87 | the aligned length is the next multiple of four |
| Netlink.MessagesNeedAlignment | src/ipscout/netlink.py:127-154 | two built messages in one chunk are both read if and only if the first body is a multiple of four bytes |
| Netlink.WalksChunk | src/ipscout/netlink.py:130-154 | a chunk of messages under any headers, padded as the kernel pads them, is walked message by message |
| Netlink.AckRoundTrip | src/ipscout/netlink.py:207-232 | the errno packed into an acknowledgement is the one reported, under any header and whatever comes before and after it; without one nothing is reported |
| NeighboursLinux.ReadAddressAttributes | src/ipscout/neighbours_linux.py:147-173 | the attribute loop is the fold over the attributes |
| NeighboursLinux.ParseNeighbourDump | src/ipscout/neighbours_linux.py:235-261 | the dump loop keeps exactly the usable entries before the first DONE or ERROR, in order |
| NeighboursLinux.DumpListsItsRows | src/ipscout/neighbours_linux.py:235-261 | a dump of any rows, each under its own header with any flags, sequence and port id and with any attributes, reads as exactly the entries they name, finished exactly when DONE follows |
| NeighboursLinux.EntryExactly | src/ipscout/neighbours_linux.py:176-204 | an entry with one destination and one link address, whatever surrounds them, names a neighbour if and only if it is neither incomplete nor failed, the address is whole, of IPv4 (2) or IPv6 (10) and able to name a host, and the link address is six bytes, not all zero |
| NeighboursLinux.DestinationExactly | src/ipscout/neighbours_linux.py:165-167 | a destination decodes if and only if it has exactly its family's size |
| NeighboursLinux.StatesByBit | src/ipscout/neighbours_linux.py:116-122 | the lowest of the bits 01, 02, 04, 20 and 80 names the state |
| Neighbours.Ipv4Neighbours | src/ipscout/models.py:385-401 | neither 0.0.0.0 nor 224.0.0.0/4 |
| Neighbours.Ipv6Neighbours | src/ipscout/models.py:385-401 | neither :: nor ff00::/8 |
| NeighboursLinux.SetRequestNamesItsEntry | src/ipscout/neighbours_linux.py:442-469 | the write request reads back as the one PERMANENT entry it asks for if and only if the address can name a host and the hardware address is not zero |
| NeighboursLinux.SetRequestOnTheWire | src/ipscout/neighbours_linux.py:442-469 | the write request byte by byte, with its flags, sequence, interface, address and hardware address |
| NeighboursLinux.RemoveRequestOnTheWire | src/ipscout/neighbours_linux.py:472-491 | the delete request byte by byte |
| NeighboursLinux.RemoveRequestNamesNothing | src/ipscout/neighbours_linux.py:472-491 | a delete request never reads as an entry |
| NeighboursLinux.DocumentedUnlessErased | src/ipscout/neighbours_linux.py:147-173 | the attributes are read by the documented rule if and only if no link address that decodes is followed by a last one that does not; where that fails the link address is lost and the destination is not |
| NeighboursLinux.AnEntryIsLost | src/ipscout/neighbours_linux.py:162-173 | concrete attributes that name an entry until a link address of zeros is added |
| BsdRoute.RoundUpAligns | src/ipscout/bsdroute.py:144-160 | the padded size is the next multiple of four and never zero |
| BsdRoute.SplitSockaddrs | src/ipscout/bsdroute.py:306-338 | the slot loop names what the recursive split finds, each sockaddr under its own place |
| BsdRoute.SplitsLayout | src/ipscout/bsdroute.py:306-338 | any subset of the eight slots, zero-length ones included, laid out in order splits back to exactly the ones that say something |
| BsdRoute.SockaddrsAreNamed | src/ipscout/bsdroute.py:306-338 | under a mask of the bits 1 to 128 every sockaddr laid out comes back under its own name |
| BsdRoute.AddressesInSockaddrs | src/ipscout/bsdroute.py:163-189 | an IPv4 address stands at 4 under family 2, an IPv6 address at 8 under family 30 |
| BsdRoute.AddressNeedsItsFamily | src/ipscout/bsdroute.py:163-189 | and nothing else holds an address |
| BsdRoute.LinkAddressExactly | src/ipscout/bsdroute.py:192-216 | a gateway names a hardware address if and only if it is a link sockaddr with six whole address bytes, not all zero |
| BsdRoute.PackedSockaddrs | src/ipscout/bsdroute.py:219-279 | the sockaddrs a write carries, byte by byte |
| BsdRoute.LinkAddressAfterName | src/ipscout/bsdroute.py:192-216 | in a sockaddr of any length, kind and selector the address behind an interface name of any length is the one reported if it has six bytes and is not zero, and otherwise none is |
| NeighboursMacos.ParseNeighbourDump | src/ipscout/neighbours_macos.py:113-156 | the message loop keeps exactly the usable entries of the family asked for, in order |
| NeighboursMacos.DumpListsItsRows | src/ipscout/neighbours_macos.py:113-156 | a dump of any messages, each with any subset of its sockaddrs, reads as exactly the entries they name |
| NeighboursMacos.EntryExactly | src/ipscout/neighbours_macos.py:135-155 | two sockaddrs name a neighbour if and only if they hold an address of the family asked for that can name a host and a hardware address; without either there is none |
| NeighboursMacos.AddMessageOnTheWire | src/ipscout/neighbours_macos.py:308-376 | the write message byte by byte |
| NeighboursMacos.AddMessageNamesItsEntry | src/ipscout/neighbours_macos.py:308-376 | the write message reads back as its one entry if and only if the address can name a host and the hardware address is not zero, its interface read as 0 |
| Bpf.IterFrames | src/ipscout/bpf.py:115-128 | the record loop is the recursive split, every slice in bounds |
| Bpf.SplitsPacked | src/ipscout/bpf.py:115-128 | records of any frames behind headers of any length from 18 split back to those frames, then whatever follows |
| Bpf.ReadGivesItsFrames | src/ipscout/bpf.py:115-128 | a whole read gives exactly its frames, whether or not the last record is padded |
| Bpf.BpfCapture.ReceiveFrame | src/ipscout/dhcp_macos.py:192-211 | pending frames go first, and a read is split only when none are pending |
| Bpf.BpfCapture.Close | src/ipscout/dhcp_macos.py:213-219 | nothing stays pending after close |
| Bpf.ErrorsStopQuietlyOnceClosed | src/ipscout/dhcp_macos.py:197-208 | an error raises before close and is a quiet stop after it |
| Bpf.WordAlignIsNext | src/ipscout/bpf.py:126-127 | records start at multiples of four |
| Bpf.ReceiveConserves | src/ipscout/dhcp_macos.py:192-211 | what is delivered and then pending is what was pending and then read |
| Bpf.NothingIsLost | src/ipscout/dhcp_macos.py:192-211 | over any run before close the frames delivered, then those pending, are all the frames read, in order |
| Mtu.Bisect | src/ipscout/mtu.py:241-259 | (the same loop as lines 188-198) against any answers the result was probed and fit and its successor was refused, in at most 15 probes; under consistent answers it is the limit |
| Banner.ReadLine | src/ipscout/banner.py:93-113 | the line depends only on the bytes delivered and the cap, not on the chunks: what precedes the first newline within the cap |
| Banner.NewlineAfter | src/ipscout/banner.py:108-112 | searching chunk by chunk finds the newline where searching the whole would |
| Sweep.FromNetworks | src/ipscout/models.py:1634-1645 | each candidate is covered exactly when it fits the room the covered ones before it left, both sides keep the order, the total is within the limit, and nothing is skipped if and only if all fit |
| Sweep.TotalSplits | src/ipscout/models.py:1634-1645 | the two sides of any split of the candidates add up to all of them, so room spent and addresses left out are never counted twice |

## Left out

- Sockets, BPF and raw devices, `ctypes`, `sysctl`, `getifaddrs`: their bytes and errors are inputs.
- Error-queue control messages (`_queued_error`, `_offender_address`, `_drain_errors`): the errors they decode to are inputs of both transports.
- A datagram's sender is a name already taken from its socket address.
- `_result`'s round-trip time: an arrival keeps its clock reading instead.
- Futures are values in the waiter table, so two names for one future are not modelled; scheduling is any order of the table's steps.
- The event loop, thread switching and locks below one critical section: any interleaving of whole critical sections, and of the test and the read result() makes outside them, is allowed.
- Random tokens and request ids are arguments; only their freshness is assumed, and only for tokens.
- UTF-8 decoding of SNMP text and the wording of errors: octets and named reasons stand for them.
- IP and MAC text: addresses are packed bytes, and `inet_ntop` accepts exactly four or sixteen of them.
- IPv4-mapped IPv6 addresses in the multicast rule for neighbours.
- Interface names: entries carry the index.
- Uptime and clock times are reals, so floating-point rounding is not modelled.
- Pool.GatherBounded: work that raises and the cancellation of workers are not modelled; work is any function of its item.
- Dhcp.DhcpSession.Return: a capture that failed part-way, whose failure the original raises here, is not modelled.
- Sweep.FromNetworks: a limit below 1, which the record refuses, and the parsing of network text are not modelled; a network is its name and its number of addresses.
- SnmpBer.Length: the octet count's bits are written as an addition; the two differ only for bodies of 2^2040 octets or more, which the original refuses.
- Little-endian byte order is fixed for the native-order structs.
- Leases, wake-on-LAN, traceroute, service, port-scan and ARP code, the Windows transport, DNS, routes, the command line and serialisation: they would add only easier members.
