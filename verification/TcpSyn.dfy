/** The TCP SYN a port scan sends and the answers it reads. */
module TcpSyn {
  import opened Bytes
  import opened IpHeaders
  import Checksum
  import Packet

  const TCP_HEADER_SIZE := 20
  const IPV4_SIZE := 20
  const PROTOCOL_TCP := 6
  const SYN := 0x02
  const RST := 0x04
  const ACK := 0x10

  datatype PortState = Open | Closed
  datatype PortReply = PortReply(port: nat, state: PortState)

  function PseudoHeader(source: bytes, target: bytes, length: nat): bytes {
    source + target + [0, PROTOCOL_TCP] + U16Be(length)
  }

  function TcpHeader(sourcePort: nat, targetPort: nat, sequence: nat, acknowledged: nat, flags: byte,
                     sum: nat): (r: bytes)
    ensures |r| == TCP_HEADER_SIZE
  {
    U16Be(sourcePort) + U16Be(targetPort) + U32Be(sequence) + U32Be(acknowledged) + [0x50, flags] + U16Be(0xFFFF)
      + U16Be(sum) + [0, 0]
  }

  function Ipv4Header(total: nat, sum: nat, source: bytes, target: bytes): bytes {
    [0x45, 0] + U16Be(total) + [0, 0, 0, 0, 64, PROTOCOL_TCP] + U16Be(sum) + source + target
  }

  function BuildSyn(source: bytes, target: bytes, sourcePort: nat, targetPort: nat, sequence: nat): bytes
    requires |source| == 4 && |target| == 4 && IsU16(sourcePort) && IsU16(targetPort) && IsU32(sequence)
  {
    var blank := TcpHeader(sourcePort, targetPort, sequence, 0, SYN, 0);
    var tcp := TcpHeader(sourcePort, targetPort, sequence, 0, SYN,
      Checksum.Sum16(PseudoHeader(source, target, |blank|) + blank));
    var total := IPV4_SIZE + |tcp|;
    Ipv4Header(total, Checksum.Sum16(Ipv4Header(total, 0, source, target)), source, target) + tcp
  }

  function ReadReply(packet: bytes, sourcePort: nat, peer: Option<bytes>): Option<PortReply> {
    var headerLength := Packet.Ipv4HeaderLength(packet);
    if headerLength.None? then None
    else if peer.Some? && packet[12..16] != peer.value then None
    else if |packet| < headerLength.value + TCP_HEADER_SIZE then None
    else
      var at := headerLength.value;
      var flags := packet[at + 13];
      if ReadU16Be(packet, at + 2) != sourcePort then None
      else if HasBit(flags, SYN) && HasBit(flags, ACK) then Some(PortReply(ReadU16Be(packet, at), Open))
      else if HasBit(flags, RST) then Some(PortReply(ReadU16Be(packet, at), Closed))
      else None
  }

  lemma TcpChecksumField(pseudo: bytes, sourcePort: nat, targetPort: nat, sequence: nat, sum: nat)
    requires |pseudo| == 12
    ensures var blank := pseudo + TcpHeader(sourcePort, targetPort, sequence, 0, SYN, 0);
            && ReadU16Be(blank, 28) == 0
            && pseudo + TcpHeader(sourcePort, targetPort, sequence, 0, SYN, sum) == Checksum.Place(blank, 28, sum)
  {
    var head := U16Be(sourcePort) + U16Be(targetPort) + U32Be(sequence) + U32Be(0) + [0x50, SYN] + U16Be(0xFFFF);
    var blank := pseudo + TcpHeader(sourcePort, targetPort, sequence, 0, SYN, 0);
    assert blank == pseudo + head + [0, 0] + [0, 0];
    assert blank[..28] == pseudo + head && blank[30..] == [0, 0];
  }

  lemma Ipv4ChecksumField(total: nat, source: bytes, target: bytes, sum: nat)
    requires |source| == 4 && |target| == 4
    ensures var blank := Ipv4Header(total, 0, source, target);
            && ReadU16Be(blank, 10) == 0
            && Ipv4Header(total, sum, source, target) == Checksum.Place(blank, 10, sum)
  {
    var blank := Ipv4Header(total, 0, source, target);
    assert blank[..10] == [0x45, 0] + U16Be(total) + [0, 0, 0, 0, 64, PROTOCOL_TCP];
    assert blank[12..] == source + target;
  }

  lemma TcpChecksumVerifies(source: bytes, target: bytes, sourcePort: nat, targetPort: nat, sequence: nat)
    requires |source| == 4 && |target| == 4
    ensures var pseudo := source + target + [0, 6, 0, 20];
            var sum := Checksum.Sum16(pseudo + TcpHeader(sourcePort, targetPort, sequence, 0, SYN, 0));
            Checksum.Sum16(pseudo + TcpHeader(sourcePort, targetPort, sequence, 0, SYN, sum)) == 0
  {
    var pseudo := source + target + [0, 6, 0, 20];
    var blank := pseudo + TcpHeader(sourcePort, targetPort, sequence, 0, SYN, 0);
    hide TcpHeader, Checksum.Sum16, Checksum.Place;
    TcpChecksumField(pseudo, sourcePort, targetPort, sequence, Checksum.Sum16(blank));
    Checksum.ReceiverAccepts(blank, 28, 0);
  }

  lemma IpChecksumVerifies(source: bytes, target: bytes)
    requires |source| == 4 && |target| == 4
    ensures Checksum.Sum16(Ipv4Header(40, Checksum.Sum16(Ipv4Header(40, 0, source, target)), source, target)) == 0
  {
    var header := Ipv4Header(40, 0, source, target);
    assert |header| == 20;
    hide Ipv4Header, Checksum.Sum16, Checksum.Place;
    Ipv4ChecksumField(40, source, target, Checksum.Sum16(header));
    Checksum.ReceiverAccepts(header, 10, 0);
  }

  lemma PseudoHeaderIs(source: bytes, target: bytes)
    ensures PseudoHeader(source, target, 20) == source + target + [0, 6, 0, 20]
  {
  }

  /** Both checksums of a SYN verify: the IP header's, and the TCP header's over the pseudo-header of its addresses. */
  lemma SynChecksumsVerify(source: bytes, target: bytes, sourcePort: nat, targetPort: nat, sequence: nat)
    requires |source| == 4 && |target| == 4 && IsU16(sourcePort) && IsU16(targetPort) && IsU32(sequence)
    ensures var packet := BuildSyn(source, target, sourcePort, targetPort, sequence);
            && |packet| == 40
            && Checksum.Sum16(packet[..20]) == 0
            && Checksum.Sum16(source + target + [0, 6, 0, 20] + packet[20..]) == 0
  {
    PseudoHeaderIs(source, target);
    var filled := Ipv4Header(40, Checksum.Sum16(Ipv4Header(40, 0, source, target)), source, target);
    var blank := TcpHeader(sourcePort, targetPort, sequence, 0, SYN, 0);
    var tcp := TcpHeader(sourcePort, targetPort, sequence, 0, SYN,
      Checksum.Sum16(PseudoHeader(source, target, 20) + blank));
    assert BuildSyn(source, target, sourcePort, targetPort, sequence) == filled + tcp && |filled| == 20;
    hide *;
    TcpChecksumVerifies(source, target, sourcePort, targetPort, sequence);
    IpChecksumVerifies(source, target);
    assert (filled + tcp)[..20] == filled && (filled + tcp)[20..] == tcp;
  }

  /** A SYN's IP header and what its TCP header says, in the fields of RFC 9293 section 3.1. */
  lemma SynOnTheWire(source: bytes, target: bytes, sourcePort: nat, targetPort: nat, sequence: nat)
    requires |source| == 4 && |target| == 4 && IsU16(sourcePort) && IsU16(targetPort) && IsU32(sequence)
    ensures var packet := BuildSyn(source, target, sourcePort, targetPort, sequence);
            && |packet| == 40
            && packet[..20] == EncodeHeader(V4(0, 40, [0, 0], 0, 64, 6, packet[10..12], source, target, []))
            && packet[20] as int * 256 + packet[21] == sourcePort
            && packet[22] as int * 256 + packet[23] == targetPort
            && packet[24] as int * 0x100_0000 + packet[25] as int * 0x1_0000
               + packet[26] as int * 256 + packet[27] == sequence
            && packet[28..36] == [0, 0, 0, 0, 0x50, 2, 255, 255] && packet[38..] == [0, 0]
  {
    var blank := TcpHeader(sourcePort, targetPort, sequence, 0, SYN, 0);
    var sum := Checksum.Sum16(PseudoHeader(source, target, 20) + blank);
    var total := Checksum.Sum16(Ipv4Header(40, 0, source, target));
    var header, tcp := Ipv4Header(40, total, source, target), TcpHeader(sourcePort, targetPort, sequence, 0, SYN, sum);
    var packet := BuildSyn(source, target, sourcePort, targetPort, sequence);
    assert packet == header + tcp;
    hide *;
    SynHeader(total, source, target);
    SynSegment(sourcePort, targetPort, sequence, sum);
    SynParts(header, tcp);
  }

  lemma SynParts(header: bytes, tcp: bytes)
    requires |header| == 20 && |tcp| == 20
    ensures var packet := header + tcp;
            && packet[..20] == header && packet[10..12] == header[10..12]
            && packet[20] == tcp[0] && packet[21] == tcp[1] && packet[22] == tcp[2] && packet[23] == tcp[3]
            && packet[24] == tcp[4] && packet[25] == tcp[5] && packet[26] == tcp[6] && packet[27] == tcp[7]
            && packet[28..36] == tcp[8..16] && packet[38..] == tcp[18..]
  {
  }

  lemma SynHeader(sum: nat, source: bytes, target: bytes)
    requires |source| == 4 && |target| == 4
    ensures Ipv4Header(40, sum, source, target)
            == EncodeHeader(V4(0, 40, [0, 0], 0, 64, 6, U16Be(sum), source, target, []))
    ensures |Ipv4Header(40, sum, source, target)| == 20 && Ipv4Header(40, sum, source, target)[10..12] == U16Be(sum)
  {
  }

  lemma SynSegment(sourcePort: nat, targetPort: nat, sequence: nat, sum: nat)
    requires IsU16(sourcePort) && IsU16(targetPort) && IsU32(sequence)
    ensures var tcp := TcpHeader(sourcePort, targetPort, sequence, 0, SYN, sum);
            && tcp[0] as int * 256 + tcp[1] == sourcePort && tcp[2] as int * 256 + tcp[3] == targetPort
            && tcp[4] as int * 0x100_0000 + tcp[5] as int * 0x1_0000 + tcp[6] as int * 256 + tcp[7] == sequence
            && tcp[8..16] == [0, 0, 0, 0, 0x50, 2, 255, 255] && tcp[18..] == [0, 0]
  {
    FourDigits(sequence);
    var tcp := TcpHeader(sourcePort, targetPort, sequence, 0, SYN, sum);
    assert tcp[8..16] == [0, 0, 0, 0, 0x50, 2, 255, 255] && tcp[18..] == [0, 0];
  }

  /** What the flags of a segment addressed to the scan say: SYN and ACK accept, RST refuses (RFC 9293 section 3.1). */
  function Verdict(port: nat, flags: byte): Option<PortReply> {
    if flags / 2 % 2 == 1 && flags / 16 % 2 == 1 then Some(PortReply(port, Open))
    else if flags / 4 % 2 == 1 then Some(PortReply(port, Closed))
    else None
  }

  /**
   * Behind an IPv4 header of any length a segment is judged by its own fields, whatever its sequence numbers, window,
   * options and data: it answers for the port it left, only from the scanned host and only to the port the scan sent
   * from. Cut anywhere before the end of its fixed part it answers nothing.
   */
  lemma AnswersAreRead(h: IpHeader, segment: bytes, rest: bytes, sourcePort: nat, peer: Option<bytes>, cut: nat)
    requires h.V4? && ValidHeader(h) && |segment| == 20 && cut < 20
    ensures ReadReply(EncodeHeader(h) + (segment + rest), sourcePort, peer)
         == if segment[2] as int * 256 + segment[3] == sourcePort && (peer.None? || peer.value == h.source)
            then Verdict(segment[0] as int * 256 + segment[1], segment[13]) else None
    ensures ReadReply(EncodeHeader(h) + segment[..cut], sourcePort, peer) == None
  {
    Ipv4Fields(h, segment + rest);
    Ipv4Fields(h, segment[..cut]);
    hide EncodeHeader;
    var header := EncodeHeader(h);
    var packet, at := header + (segment + rest), |header|;
    assert packet[at] == segment[0] && packet[at + 1] == segment[1] && packet[at + 2] == segment[2]
      && packet[at + 3] == segment[3];
    assert packet[at + 13] == segment[13];
  }

  lemma NoVerdictOnSyn(port: nat)
    ensures Verdict(port, SYN) == None
  {
  }

  /** A probe seen again on the raw socket is never an answer to the scan, whatever ports are asked about. */
  lemma ProbeIsNoAnswer(source: bytes, target: bytes, sourcePort: nat, targetPort: nat, sequence: nat, asked: nat,
                        peer: Option<bytes>)
    requires |source| == 4 && |target| == 4 && IsU16(sourcePort) && IsU16(targetPort) && IsU32(sequence)
    ensures ReadReply(BuildSyn(source, target, sourcePort, targetPort, sequence), asked, peer) == None
  {
    var blank := TcpHeader(sourcePort, targetPort, sequence, 0, SYN, 0);
    var sum := Checksum.Sum16(PseudoHeader(source, target, |blank|) + blank);
    var tcp := TcpHeader(sourcePort, targetPort, sequence, 0, SYN, sum);
    var header := Ipv4Header(40, Checksum.Sum16(Ipv4Header(40, 0, source, target)), source, target);
    assert tcp[13] == SYN;
    assert BuildSyn(source, target, sourcePort, targetPort, sequence) == header + tcp;
    var total := Checksum.Sum16(Ipv4Header(40, 0, source, target));
    var h := V4(0, 40, [0, 0], 0, 64, 6, U16Be(total), source, target, []);
    assert ValidHeader(h) && h.V4?;
    hide *;
    SynHeader(total, source, target);
    AnswersAreRead(h, tcp, [], asked, peer, 0);
    NoVerdictOnSyn(ReadU16Be(tcp, 0));
    assert tcp + [] == tcp;
  }
}
