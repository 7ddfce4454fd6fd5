/** The DHCP reply a captured frame carries, if it carries one (RFC 2131), and the offers a list of frames makes. */
module Bootp {
  import opened Bytes
  import opened IpHeaders
  import Packet
  import Neighbours

  const ETHERNET_HEADER_SIZE := 14
  const ETH_P_VLAN := 0x8100
  const ETH_P_IP := 0x0800
  const PROTOCOL_UDP := 17
  const UDP_HEADER_SIZE := 8
  const SERVER_PORT := 67
  const CLIENT_PORT := 68
  const FIXED_SIZE := 236
  const MAGIC_COOKIE: bytes := [0x63, 0x82, 0x53, 0x63]
  const COOKIE_END := FIXED_SIZE + 4
  const OPT_PAD: byte := 0
  const OPT_MESSAGE_TYPE: byte := 53
  const OPT_END: byte := 255

  /** Addresses are packed; a message type is its number, 1 to 8. */
  datatype DhcpReply = DhcpReply(clientMac: bytes, offeredIp: bytes, serverIp: bytes, transactionId: bytes,
                                 messageType: Option<byte>)

  datatype ServerDatagram = ServerDatagram(serverIp: bytes, body: bytes)

  predicate LooksLikeBareIpv4(frame: bytes) {
    var headerLen := Packet.Ipv4HeaderLength(frame);
    && headerLen.Some?
    && frame[9] == PROTOCOL_UDP
    && headerLen.value <= |frame|
    && headerLen.value <= ReadU16Be(frame, 2) <= |frame|
  }

  function IpPayload(frame: bytes): Option<bytes> {
    if LooksLikeBareIpv4(frame) then Some(frame)
    else if |frame| < ETHERNET_HEADER_SIZE then None
    else if ReadU16Be(frame, 12) == ETH_P_VLAN then
      if |frame| < ETHERNET_HEADER_SIZE + 4 || ReadU16Be(frame, 16) != ETH_P_IP then None else Some(frame[18..])
    else if ReadU16Be(frame, 12) != ETH_P_IP then None
    else Some(frame[14..])
  }

  function UdpPayload(packet: bytes): Option<ServerDatagram> {
    var headerLen := Packet.Ipv4HeaderLength(packet);
    if headerLen.None? || packet[9] != PROTOCOL_UDP then None
    else if ReadU16Be(packet, 6) % 0x2000 != 0 then None
    else if |packet| < headerLen.value + UDP_HEADER_SIZE then None
    else
      var source, destination := ReadU16Be(packet, headerLen.value), ReadU16Be(packet, headerLen.value + 2);
      if source != SERVER_PORT || (destination != SERVER_PORT && destination != CLIENT_PORT) then None
      else Some(ServerDatagram(packet[12..16], packet[headerLen.value + UDP_HEADER_SIZE..]))
  }

  function KnownMessageType(value: byte): Option<byte> {
    if 1 <= value <= 8 then Some(value) else None
  }

  /** The option walk from `position` on. */
  function MessageTypeFrom(body: bytes, position: nat): Option<byte>
    decreases |body| - position
  {
    if position >= |body| then None
    else
      var code := body[position];
      if code == OPT_END then None
      else if code == OPT_PAD then MessageTypeFrom(body, position + 1)
      else if position + 2 > |body| then None
      else
        var length := body[position + 1];
        if position + 2 + length > |body| then None
        else if code == OPT_MESSAGE_TYPE && length >= 1 then KnownMessageType(body[position + 2])
        else MessageTypeFrom(body, position + 2 + length)
  }

  function MessageTypeOf(body: bytes): Option<byte> {
    if |body| < COOKIE_END || body[FIXED_SIZE..COOKIE_END] != MAGIC_COOKIE then None
    else MessageTypeFrom(body, COOKIE_END)
  }

  method MessageType(body: bytes) returns (r: Option<byte>)
    ensures r == MessageTypeOf(body)
  {
    if |body| < COOKIE_END || body[FIXED_SIZE..COOKIE_END] != MAGIC_COOKIE {
      return None;
    }
    var position := COOKIE_END;
    while position < |body|
      invariant MessageTypeFrom(body, position) == MessageTypeOf(body)
    {
      var code := body[position];
      if code == OPT_END {
        return None;
      }
      if code == OPT_PAD {
        position := position + 1;
        continue;
      }
      if position + 2 > |body| {
        return None;
      }
      var length := body[position + 1];
      if position + 2 + length > |body| {
        return None;
      }
      if code == OPT_MESSAGE_TYPE && length >= 1 {
        return KnownMessageType(body[position + 2]);
      }
      position := position + 2 + length;
    }
    return None;
  }

  function FromDatagram(datagram: ServerDatagram): Option<DhcpReply> {
    var body := datagram.body;
    if |body| < FIXED_SIZE then None
    else if body[0] != 2 || body[1] != 1 || body[2] != 6 || body[16..20] == Zeros(4) then None
    else
      var mac := Neighbours.FormatMac(body[28..34]);
      if mac.None? then None
      else Some(DhcpReply(mac.value, body[16..20], datagram.serverIp, body[4..8], MessageTypeOf(body)))
  }

  function FromPacket(packet: bytes): Option<DhcpReply> {
    var datagram := UdpPayload(packet);
    if datagram.None? then None else FromDatagram(datagram.value)
  }

  function FromFrame(frame: bytes): Option<DhcpReply> {
    var packet := IpPayload(frame);
    if packet.None? then None else FromPacket(packet.value)
  }

  // ---------------------------------------------------------------- link headers

  predicate IsLinkHeader(link: bytes) {
    || (|link| == 14 && ReadU16Be(link, 12) == 0x0800)
    || (|link| == 18 && ReadU16Be(link, 12) == 0x8100 && ReadU16Be(link, 16) == 0x0800)
  }

  /**
   * The packet is found behind an Ethernet header, tagged or not, if and only if the frame does not itself pass for a
   * bare IPv4 UDP packet; then a bare packet and a framed one give the same reply.
   */
  lemma LinkHeaderIsSkipped(link: bytes, packet: bytes)
    requires IsLinkHeader(link)
    ensures IpPayload(link + packet) == Some(packet) <==> !LooksLikeBareIpv4(link + packet)
    ensures !LooksLikeBareIpv4(link + packet) ==> FromFrame(link + packet) == FromPacket(packet)
    ensures LooksLikeBareIpv4(packet) ==> FromFrame(packet) == FromPacket(packet)
  {
    assert (link + packet)[|link|..] == packet;
  }

  /** Such frames exist: one host's own station address can read as an IPv4 version, header length and total length. */
  lemma SomeFramesPassForPackets(packet: bytes)
    requires |packet| >= 10
    ensures var link := [0x46, 0, 0, 24, 0, 0, 2, 0, 0, 17, 0, 1, 8, 0];
            && !HasBit(link[0], 1)
            && IsLinkHeader(link) && IpPayload(link + packet) == Some(link + packet)
  {
  }

  // ---------------------------------------------------------------- options

  datatype DhcpOption = Pad | Coded(code: byte, value: bytes)

  predicate ValidOption(o: DhcpOption) {
    o.Coded? ==> o.code != 0 && o.code != 255 && |o.value| < 256
  }

  function EncodeOption(o: DhcpOption): (r: bytes)
    requires ValidOption(o)
    ensures |r| > 0
  {
    if o.Pad? then [0] else [o.code, |o.value|] + o.value
  }

  function EncodeOptions(options: seq<DhcpOption>): bytes
    requires forall i :: 0 <= i < |options| ==> ValidOption(options[i])
  {
    if |options| == 0 then [] else EncodeOption(options[0]) + EncodeOptions(options[1..])
  }

  /** The first message-type option that says anything decides, even when it names no known type. */
  function DeclaredType(options: seq<DhcpOption>): Option<byte> {
    if |options| == 0 then None
    else if Decides(options[0]) then
      if 1 <= options[0].value[0] <= 8 then Some(options[0].value[0]) else None
    else DeclaredType(options[1..])
  }

  predicate Decides(o: DhcpOption) {
    o.Coded? && o.code == 53 && |o.value| > 0
  }

  lemma WalkReadsOne(before: bytes, o: DhcpOption, rest: bytes)
    requires ValidOption(o)
    ensures MessageTypeFrom(before + (EncodeOption(o) + rest), |before|)
         == if Decides(o) then KnownMessageType(o.value[0])
            else MessageTypeFrom(before + EncodeOption(o) + rest, |before + EncodeOption(o)|)
  {
    var body := before + (EncodeOption(o) + rest);
    var first := EncodeOption(o);
    assert body == before + first + rest;
    assert body[|before|] == first[0];
    if o.Coded? {
      assert body[|before| + 1] == first[1];
      if |o.value| > 0 {
        assert body[|before| + 2] == first[2];
      }
    }
  }

  /** Where the walk stops: at the end of the bytes, at END, or at an option that runs past the end of the bytes. */
  predicate EndsWalk(tail: bytes) {
    || tail == []
    || tail[0] == 255
    || (tail[0] != 0 && (|tail| < 2 || |tail| < 2 + tail[1] as int))
  }

  lemma WalkEnds(before: bytes, tail: bytes)
    requires EndsWalk(tail)
    ensures MessageTypeFrom(before + tail, |before|) == None
  {
    var body := before + tail;
    if |tail| > 0 {
      assert body[|before|] == tail[0];
    }
    if |tail| > 1 {
      assert body[|before| + 1] == tail[1];
    }
  }

  lemma {:induction false} WalkReadsOptions(before: bytes, options: seq<DhcpOption>, tail: bytes)
    requires EndsWalk(tail) && forall i :: 0 <= i < |options| ==> ValidOption(options[i])
    ensures MessageTypeFrom(before + (EncodeOptions(options) + tail), |before|) == DeclaredType(options)
    decreases |options|
  {
    hide MessageTypeFrom, EncodeOption, Decides, ValidOption, EndsWalk;
    if |options| == 0 {
      assert EncodeOptions(options) + tail == tail;
      WalkEnds(before, tail);
    } else {
      var first, others := EncodeOption(options[0]), EncodeOptions(options[1..]);
      Regrouped(first, others, tail);
      WalkReadsOne(before, options[0], others + tail);
      if !Decides(options[0]) {
        WalkReadsOptions(before + first, options[1..], tail);
      }
    }
  }

  /**
   * What follows the fixed part: anything without the cookie, or the cookie, whole options and where the walk stops.
   */
  datatype VendorArea = NoCookie(area: bytes) | Options(options: seq<DhcpOption>, tail: bytes)

  predicate ValidArea(v: VendorArea) {
    match v
    case NoCookie(area) => !([0x63, 0x82, 0x53, 0x63] <= area)
    case Options(options, tail) => EndsWalk(tail) && forall i :: 0 <= i < |options| ==> ValidOption(options[i])
  }

  function EncodeArea(v: VendorArea): bytes
    requires ValidArea(v)
  {
    match v
    case NoCookie(area) => area
    case Options(options, tail) => [0x63, 0x82, 0x53, 0x63] + (EncodeOptions(options) + tail)
  }

  function TypeIn(v: VendorArea): Option<byte> {
    if v.NoCookie? then None else DeclaredType(v.options)
  }

  lemma CookieStarts(fixed: bytes, rest: bytes)
    requires |fixed| == FIXED_SIZE
    ensures MessageTypeOf(fixed + MAGIC_COOKIE + rest) == MessageTypeFrom(fixed + MAGIC_COOKIE + rest, COOKIE_END)
  {
    hide MessageTypeFrom;
    assert (fixed + MAGIC_COOKIE + rest)[FIXED_SIZE..COOKIE_END] == MAGIC_COOKIE;
  }

  lemma NoCookieNoType(fixed: bytes, area: bytes)
    requires |fixed| == FIXED_SIZE && !(MAGIC_COOKIE <= area)
    ensures MessageTypeOf(fixed + area) == None
  {
    hide MessageTypeFrom;
    if |area| >= 4 {
      assert (fixed + area)[FIXED_SIZE..COOKIE_END] == area[..4];
    }
  }

  /**
   * The option walk agrees with the list it walks: pads, other options, END or none, trailing bytes, a truncated
   * option.
   */
  lemma MessageTypeIsDeclared(fixed: bytes, v: VendorArea)
    requires |fixed| == FIXED_SIZE && ValidArea(v)
    ensures MessageTypeOf(fixed + EncodeArea(v)) == TypeIn(v)
  {
    hide MessageTypeOf, MessageTypeFrom, DeclaredType, EncodeOptions, EndsWalk, ValidOption;
    match v {
      case NoCookie(area) => NoCookieNoType(fixed, area);
      case Options(options, tail) =>
        var rest := EncodeOptions(options) + tail;
        WalkReadsOptions(fixed + MAGIC_COOKIE, options, tail);
        CookieStarts(fixed, rest);
        Regrouped(fixed, MAGIC_COOKIE, rest);
    }
  }

  lemma {:induction false} EveryWalkEnds(bytesLeft: bytes) returns (options: seq<DhcpOption>, tail: bytes)
    ensures EndsWalk(tail) && forall i :: 0 <= i < |options| ==> ValidOption(options[i])
    ensures EncodeOptions(options) + tail == bytesLeft
  {
    if EndsWalk(bytesLeft) {
      options, tail := [], bytesLeft;
    } else {
      var size := if bytesLeft[0] == OPT_PAD then 1 else 2 + bytesLeft[1] as int;
      var first := if bytesLeft[0] == OPT_PAD then Pad else Coded(bytesLeft[0], bytesLeft[2..size]);
      assert EncodeOption(first) == bytesLeft[..size];
      var others;
      others, tail := EveryWalkEnds(bytesLeft[size..]);
      options := [first] + others;
      assert options[1..] == others;
      Regrouped(bytesLeft[..size], EncodeOptions(others), tail);
      assert bytesLeft == bytesLeft[..size] + bytesLeft[size..];
    }
  }

  /** So any bytes at all after the fixed part are covered. */
  lemma EveryAreaIsOne(area: bytes) returns (v: VendorArea)
    ensures ValidArea(v) && EncodeArea(v) == area
  {
    if MAGIC_COOKIE <= area {
      var options, tail := EveryWalkEnds(area[4..]);
      v := Options(options, tail);
      assert area == MAGIC_COOKIE + area[4..];
    } else {
      v := NoCookie(area);
    }
  }

  // ---------------------------------------------------------------- captures cut short

  /** `cut` says the same as `whole`, or nothing. */
  predicate SaysLess<T(==)>(cut: Option<T>, whole: Option<T>) {
    cut == None || cut == whole
  }

  lemma {:induction false} CutWalk(body: bytes, k: nat, position: nat)
    requires k <= |body|
    ensures SaysLess(MessageTypeFrom(body[..k], position), MessageTypeFrom(body, position))
    decreases |body| - position
  {
    if position >= k {
    } else if body[position] == OPT_PAD {
      CutWalk(body, k, position + 1);
    } else if body[position] != OPT_END && position + 2 <= k {
      CutWalk(body, k, position + 2 + body[position + 1]);
    }
  }

  /** A body cut anywhere declares the same type or none. */
  lemma CutType(body: bytes, k: nat)
    requires k <= |body|
    ensures SaysLess(MessageTypeOf(body[..k]), MessageTypeOf(body))
  {
    CutWalk(body, k, COOKIE_END);
    if k >= COOKIE_END {
      assert body[..k][FIXED_SIZE..COOKIE_END] == body[FIXED_SIZE..COOKIE_END];
    }
  }

  /** The same reply, its type perhaps gone, or none. */
  predicate RepliesLess(cut: Option<DhcpReply>, whole: Option<DhcpReply>) {
    cut.Some? ==> && whole.Some? && SaysLess(cut.value.messageType, whole.value.messageType)
                  && cut.value == whole.value.(messageType := cut.value.messageType)
  }

  lemma CutBody(datagram: ServerDatagram, k: nat)
    requires k <= |datagram.body|
    ensures RepliesLess(FromDatagram(datagram.(body := datagram.body[..k])), FromDatagram(datagram))
  {
    var body, cut := datagram.body, datagram.body[..k];
    CutType(body, k);
    hide MessageTypeOf;
    if k >= FIXED_SIZE {
      assert cut[16..20] == body[16..20] && cut[28..34] == body[28..34] && cut[4..8] == body[4..8];
    }
  }

  lemma CutUdp(packet: bytes, k: nat)
    requires k <= |packet| && UdpPayload(packet[..k]).Some?
    ensures var whole := UdpPayload(packet);
            && whole.Some?
            && |packet| - k <= |whole.value.body|
            && UdpPayload(packet[..k])
                  == Some(whole.value.(body := whole.value.body[..|whole.value.body| - (|packet| - k)]))
  {
    var cut := packet[..k];
    var at := Packet.Ipv4HeaderLength(cut).value;
    assert Packet.Ipv4HeaderLength(packet) == Some(at);
    assert cut[12..16] == packet[12..16];
    var body := packet[at + UDP_HEADER_SIZE..];
    assert cut[at + UDP_HEADER_SIZE..] == body[..|body| - (|packet| - k)];
  }

  lemma CutPacket(packet: bytes, k: nat)
    requires k <= |packet|
    ensures RepliesLess(FromPacket(packet[..k]), FromPacket(packet))
  {
    if UdpPayload(packet[..k]).Some? {
      CutUdp(packet, k);
      var whole := UdpPayload(packet).value;
      CutBody(whole, |whole.body| - (|packet| - k));
    }
  }

  /** How many bytes an Ethernet reading takes off the front, or None where it finds no IPv4. */
  function LinkSize(frame: bytes): Option<nat> {
    if |frame| < ETHERNET_HEADER_SIZE then None
    else if ReadU16Be(frame, 12) == ETH_P_IP then Some(14)
    else if ReadU16Be(frame, 12) == ETH_P_VLAN && |frame| >= 18 && ReadU16Be(frame, 16) == ETH_P_IP then Some(18)
    else None
  }

  /** Cut below its own total length, a bare packet is read as an Ethernet frame, its source address as the type. */
  predicate IsMisread(frame: bytes, k: nat)
    requires k <= |frame|
  {
    LooksLikeBareIpv4(frame) && !LooksLikeBareIpv4(frame[..k]) && LinkSize(frame[..k]).Some?
  }

  lemma LinkSizeDecides(frame: bytes)
    ensures IpPayload(frame)
         == if LooksLikeBareIpv4(frame) then Some(frame)
            else if LinkSize(frame).Some? then Some(frame[LinkSize(frame).value..]) else None
  {
    hide LooksLikeBareIpv4;
  }

  lemma CutLink(frame: bytes, k: nat)
    requires k <= |frame|
    ensures LooksLikeBareIpv4(frame[..k]) ==> LooksLikeBareIpv4(frame)
    ensures LinkSize(frame[..k]).Some? ==> LinkSize(frame) == LinkSize(frame[..k]) && LinkSize(frame).value <= k
  {
    var cut := frame[..k];
    assert Packet.Ipv4HeaderLength(cut).Some? ==> Packet.Ipv4HeaderLength(frame) == Packet.Ipv4HeaderLength(cut);
    assert k >= 14 ==> ReadU16Be(cut, 12) == ReadU16Be(frame, 12);
    assert k >= 18 ==> ReadU16Be(cut, 16) == ReadU16Be(frame, 16);
  }

  lemma MisreadSource(frame: bytes, k: nat)
    requires k <= |frame| && IsMisread(frame, k)
    ensures |frame| >= 14 && (ReadU16Be(frame, 12) == ETH_P_IP || ReadU16Be(frame, 12) == ETH_P_VLAN)
    ensures ReadU16Be(frame, 2) > k
  {
    var cut := frame[..k];
    assert cut[2] == frame[2] && cut[3] == frame[3] && cut[9] == frame[9] && cut[12] == frame[12]
      && cut[13] == frame[13];
  }

  /**
   * A capture cut anywhere gives the reply the whole frame gives, its type perhaps gone, or none, unless it is a bare
   * packet cut below its own total length whose source address begins as an Ethernet type. What is then read as the
   * packet decides, and nothing else does.
   */
  lemma CutFramesSayLess(frame: bytes, k: nat)
    requires k <= |frame|
    ensures !IsMisread(frame, k) ==> RepliesLess(FromFrame(frame[..k]), FromFrame(frame))
    ensures IsMisread(frame, k) ==>
              && FromFrame(frame[..k]) == FromPacket(frame[..k][LinkSize(frame[..k]).value..])
              && (ReadU16Be(frame, 12) == ETH_P_IP || ReadU16Be(frame, 12) == ETH_P_VLAN) && ReadU16Be(frame, 2) > k
  {
    var cut := frame[..k];
    CutLink(frame, k);
    LinkSizeDecides(frame);
    LinkSizeDecides(cut);
    hide LooksLikeBareIpv4, FromPacket, RepliesLess, IpPayload, LinkSize;
    if IsMisread(frame, k) {
      MisreadSource(frame, k);
    } else if LooksLikeBareIpv4(cut) {
      CutPacket(frame, k);
    } else if LinkSize(cut).Some? {
      var at := LinkSize(cut).value;
      assert cut[at..] == frame[at..][..k - at];
      CutPacket(frame[at..], k - at);
    } else {
      NoReplyIsLess(FromFrame(frame));
    }
  }

  lemma NoReplyIsLess(whole: Option<DhcpReply>)
    ensures RepliesLess(None, whole)
  {
  }

  // ---------------------------------------------------------------- replies as a server lays them out

  /** The fixed part in the order of RFC 2131 section 2; fields nothing reads are kept together. */
  datatype BootpMessage = BootpMessage(op: byte, htype: byte, hlen: byte, hops: byte, xid: bytes, secsToCiaddr: bytes,
                                       yiaddr: bytes, siaddrToGiaddr: bytes, chaddr: bytes, snameAndFile: bytes)

  predicate ValidMessage(m: BootpMessage) {
    |m.xid| == 4 && |m.secsToCiaddr| == 8 && |m.yiaddr| == 4 && |m.siaddrToGiaddr| == 8 && |m.chaddr| == 16
      && |m.snameAndFile| == 192
  }

  function EncodeFixed(m: BootpMessage): bytes {
    [m.op, m.htype, m.hlen, m.hops] + m.xid + m.secsToCiaddr + m.yiaddr + (m.siaddrToGiaddr + m.chaddr + m.snameAndFile)
  }

  /** A reply of a server's that hands an Ethernet client an address. */
  predicate IsOffer(m: BootpMessage) {
    m.op == 2 && m.htype == 1 && m.hlen == 6 && m.yiaddr != Zeros(4) && |m.chaddr| >= 6 && m.chaddr[..6] != Zeros(6)
  }

  lemma FixedReads(m: BootpMessage, rest: bytes, serverIp: bytes)
    requires ValidMessage(m)
    ensures FromDatagram(ServerDatagram(serverIp, EncodeFixed(m) + rest))
         == if IsOffer(m)
            then Some(DhcpReply(m.chaddr[..6], m.yiaddr, serverIp, m.xid, MessageTypeOf(EncodeFixed(m) + rest)))
            else None
  {
    hide MessageTypeOf;
    var head, tail := [m.op, m.htype, m.hlen, m.hops], m.siaddrToGiaddr + m.chaddr + m.snameAndFile;
    var fixed := EncodeFixed(m);
    var body := fixed + rest;
    assert fixed == head + (m.xid + (m.secsToCiaddr + (m.yiaddr + tail)));
    assert body[0] == head[0] && body[1] == head[1] && body[2] == head[2];
    assert body[4..8] == m.xid && body[16..20] == m.yiaddr;
    assert body[28..34] == tail[8..14] == m.chaddr[..6];
  }

  /** The IP header says UDP and is no later fragment, and the ports are a server's. */
  predicate FromServer(h: IpHeader, source: nat, destination: nat)
    requires h.V4?
  {
    h.protocol == 17 && h.fragment % 0x2000 == 0 && source == 67 && (destination == 67 || destination == 68)
  }

  /** Behind an IPv4 header of any length, whatever the UDP length and checksum say. */
  lemma DatagramReads(h: IpHeader, source: nat, destination: nat, lengthAndSum: bytes, body: bytes)
    requires h.V4? && ValidHeader(h) && IsU16(source) && IsU16(destination) && |lengthAndSum| == 4
    ensures UdpPayload(EncodeHeader(h) + (U16Be(source) + U16Be(destination) + lengthAndSum + body))
         == if FromServer(h, source, destination) then Some(ServerDatagram(h.source, body)) else None
  {
    var ip, udp := EncodeHeader(h), U16Be(source) + U16Be(destination) + lengthAndSum;
    var packet, at := ip + (udp + body), |ip|;
    Ipv4Fields(h, udp + body);
    hide EncodeHeader;
    assert packet[at] == udp[0] && packet[at + 1] == udp[1] && packet[at + 2] == udp[2] && packet[at + 3] == udp[3];
    assert packet[at + UDP_HEADER_SIZE..] == body;
  }

  function Datagram(h: IpHeader, source: nat, destination: nat, lengthAndSum: bytes, body: bytes): bytes
    requires ValidHeader(h)
  {
    EncodeHeader(h) + (U16Be(source) + U16Be(destination) + lengthAndSum + body)
  }

  /** A packet passes for bare if and only if it is UDP and its total length covers its header and fits the bytes. */
  lemma BareExactly(h: IpHeader, rest: bytes)
    requires h.V4? && ValidHeader(h)
    ensures LooksLikeBareIpv4(EncodeHeader(h) + rest)
       <==> h.protocol == 17 && 20 + |h.options| <= h.total <= 20 + |h.options| + |rest|
  {
    Ipv4Fields(h, rest);
    hide EncodeHeader;
  }

  /** Nothing else does: not what says another version, nor what cannot hold a header. */
  lemma OthersAreNotBare(frame: bytes)
    ensures |frame| < 20 || frame[0] / 16 != 4 || frame[0] % 16 < 5 ==> !LooksLikeBareIpv4(frame)
  {
  }

  /** A BOOTP message as it is captured, field by field. */
  datatype ServerFrame = ServerFrame(link: bytes, h: IpHeader, source: nat, destination: nat, lengthAndSum: bytes,
                                     message: BootpMessage, vendor: VendorArea)

  predicate ValidParts(f: ServerFrame) {
    && f.h.V4? && ValidHeader(f.h) && IsU16(f.source) && IsU16(f.destination) && |f.lengthAndSum| == 4
    && ValidMessage(f.message) && ValidArea(f.vendor)
  }

  function PacketOf(f: ServerFrame): bytes
    requires ValidParts(f)
  {
    Datagram(f.h, f.source, f.destination, f.lengthAndSum, EncodeFixed(f.message) + EncodeArea(f.vendor))
  }

  /** Without a link header it must look like a bare packet; behind one it must not. */
  predicate ValidFrame(f: ServerFrame) {
    && ValidParts(f)
    && if f.link == [] then LooksLikeBareIpv4(PacketOf(f))
       else (IsLinkHeader(f.link) && !LooksLikeBareIpv4(f.link + PacketOf(f)))
  }

  function EncodeFrame(f: ServerFrame): bytes
    requires ValidFrame(f)
  {
    f.link + PacketOf(f)
  }

  /**
   * A frame holding a BOOTP message, bare or behind a link header, whatever follows its fixed part, gives a reply if
   * and only if it is a server's handing out an address; the reply's fields are then the message's own and its type
   * the one its options declare.
   */
  lemma ReplyIsRead(f: ServerFrame)
    requires ValidFrame(f)
    ensures var m := f.message;
            FromFrame(EncodeFrame(f))
            == if FromServer(f.h, f.source, f.destination) && IsOffer(m)
               then Some(DhcpReply(m.chaddr[..6], m.yiaddr, f.h.source, m.xid, TypeIn(f.vendor))) else None
  {
    var body := EncodeFixed(f.message) + EncodeArea(f.vendor);
    var packet := PacketOf(f);
    assert FromPacket(packet) == if UdpPayload(packet).None? then None else FromDatagram(UdpPayload(packet).value);
    assert |EncodeFixed(f.message)| == FIXED_SIZE;
    LinkOrBare(f.link, packet);
    assert packet == EncodeHeader(f.h) + (U16Be(f.source) + U16Be(f.destination) + f.lengthAndSum + body);
    assert EncodeFrame(f) == f.link + packet;
    hide *;
    DatagramReads(f.h, f.source, f.destination, f.lengthAndSum, body);
    FixedReads(f.message, EncodeArea(f.vendor), f.h.source);
    MessageTypeIsDeclared(EncodeFixed(f.message), f.vendor);
  }

  lemma LinkOrBare(link: bytes, packet: bytes)
    requires if link == [] then LooksLikeBareIpv4(packet) else IsLinkHeader(link) && !LooksLikeBareIpv4(link + packet)
    ensures FromFrame(link + packet) == FromPacket(packet)
  {
    hide LooksLikeBareIpv4, FromPacket;
    if link == [] {
      assert link + packet == packet;
    } else {
      LinkHeaderIsSkipped(link, packet);
    }
  }

  // ---------------------------------------------------------------- one server's offer, byte by byte

  /** A DHCPACK for one client, behind the shortest IPv4 header. */
  function Offer(link: bytes, mac: bytes, address: bytes): ServerFrame {
    ServerFrame(link, V4(0, 272, [0, 0], 0, 64, 17, [0, 0], [192, 0, 2, 1], [255, 255, 255, 255], []), 67, 68,
                [0, 0, 0, 0], OfferMessage(mac, address), ACK)
  }

  function OfferPacket(mac: bytes, address: bytes): bytes
    requires IsClient(mac) && IsAddress(address)
  {
    PacketOf(Offer([], mac, address))
  }

  const ACK: VendorArea := Options([Coded(53, [5])], [255])

  function OfferMessage(mac: bytes, address: bytes): BootpMessage {
    BootpMessage(2, 1, 6, 0, [0, 0, 0, 1], Zeros(8), address, Zeros(8), mac + Zeros(10), Zeros(192))
  }

  predicate IsClient(mac: bytes) {
    |mac| == 6 && mac != Zeros(6)
  }

  predicate IsAddress(address: bytes) {
    |address| == 4 && address != Zeros(4)
  }

  const BROADCAST_LINK: bytes := [255, 255, 255, 255, 255, 255, 2, 0, 0, 0, 0, 1, 8, 0]

  function OfferFrame(mac: bytes, address: bytes): bytes
    requires IsClient(mac) && IsAddress(address)
  {
    BROADCAST_LINK + OfferPacket(mac, address)
  }

  lemma OfferIsRead(link: bytes, mac: bytes, address: bytes)
    requires IsClient(mac) && IsAddress(address)
    requires IsLinkHeader(link) && !LooksLikeBareIpv4(link + OfferPacket(mac, address))
    ensures FromFrame(link + OfferPacket(mac, address))
         == Some(DhcpReply(mac, address, [192, 0, 2, 1], [0, 0, 0, 1], Some(5)))
  {
    var f := Offer(link, mac, address);
    var m := OfferMessage(mac, address);
    assert FromServer(f.h, 67, 68) && m.chaddr[..6] == mac && IsOffer(m) && TypeIn(ACK) == Some(5);
    assert PacketOf(f) == OfferPacket(mac, address);
    hide LooksLikeBareIpv4, FromFrame, PacketOf, OfferPacket;
    ReplyIsRead(f);
  }

  lemma OfferFrameIsRead(mac: bytes, address: bytes)
    requires IsClient(mac) && IsAddress(address)
    ensures FromFrame(OfferFrame(mac, address)) == Some(DhcpReply(mac, address, [192, 0, 2, 1], [0, 0, 0, 1], Some(5)))
  {
    assert OfferFrame(mac, address)[0] == 255;
    OthersAreNotBare(OfferFrame(mac, address));
    OfferIsRead(BROADCAST_LINK, mac, address);
  }

  /** The start of a bare packet from 8.0.69.0 that announces one byte more than the `size` behind it. */
  function MisleadingHead(size: nat): (r: bytes)
    ensures |r| == 14
  {
    [0x45, 0] + U16Be(15 + size) + [0, 0, 0, 0, 64, 17, 0, 0, 8, 0]
  }

  lemma MisleadingHeadReads(packet: bytes)
    requires 20 <= |packet| < 60000 && packet[6] == 0 && packet[7] == 0
    ensures var head := MisleadingHead(|packet|);
            && IsLinkHeader(head)
            && LooksLikeBareIpv4(head + packet + [0]) && !LooksLikeBareIpv4(head + packet)
            && LinkSize(head + packet) == Some(14)
            && UdpPayload(head + packet + [0]) == None
  {
    var head := MisleadingHead(|packet|);
    var cut, whole := head + packet, head + packet + [0];
    assert ReadU16Be(head, 2) == |whole| && ReadU16Be(head, 12) == ETH_P_IP;
    assert forall i :: 0 <= i < 14 ==> whole[i] == head[i] && cut[i] == head[i];
    assert whole[0] == 0x45 && whole[9] == PROTOCOL_UDP && cut[0] == 0x45;
    assert whole[2] == head[2] && whole[3] == head[3] && cut[2] == head[2] && cut[3] == head[3];
    assert cut[12] == head[12] && cut[13] == head[13];
    assert whole[20] == packet[6] && whole[21] == packet[7];
    hide MisleadingHead;
  }

  /** Misread packets do give other replies: whole this one gives none, and without its last byte an offer. */
  lemma ACutGivesAnotherReply(mac: bytes, address: bytes)
    requires IsClient(mac) && IsAddress(address)
    ensures var whole := MisleadingHead(272) + OfferPacket(mac, address) + [0];
            var k := |whole| - 1;
            && LooksLikeBareIpv4(whole) && IsMisread(whole, k)
            && FromFrame(whole) == None
            && FromFrame(whole[..k]).Some? && FromFrame(whole[..k]).value.offeredIp == address
            && !RepliesLess(FromFrame(whole[..k]), FromFrame(whole))
  {
    var packet := OfferPacket(mac, address);
    OfferPacketSize(mac, address);
    Ipv4Fields(Offer([], mac, address).h, packet[20..]);
    assert packet[6] == 0 && packet[7] == 0;
    hide OfferPacket, LooksLikeBareIpv4, UdpPayload, LinkSize, MisleadingHead, IsLinkHeader;
    MisleadingHeadReads(packet);
    OfferIsRead(MisleadingHead(272), mac, address);
    assert (MisleadingHead(272) + packet + [0])[..286] == MisleadingHead(272) + packet;
  }

  lemma OfferPacketSize(mac: bytes, address: bytes)
    requires IsClient(mac) && IsAddress(address)
    ensures |OfferPacket(mac, address)| == 272
  {
    var option := Coded(53, [5]);
    assert EncodeOptions([option]) == EncodeOption(option) + EncodeOptions([option][1..]);
  }

  /** The eight types of RFC 2132 section 9.6 are known, and no other number is. */
  lemma KnownTypes(fixed: bytes, number: byte)
    requires |fixed| == FIXED_SIZE
    ensures MessageTypeOf(fixed + [99, 130, 83, 99, 53, 1, number, 255]) == if number in {1, 2, 3, 4, 5, 6, 7, 8}
            then Some(number) else None
  {
    var v := Options([Coded(53, [number])], [255]);
    assert EncodeOptions(v.options) == [53, 1, number] by {
      assert EncodeOptions(v.options) == EncodeOption(v.options[0]) + EncodeOptions(v.options[1..]);
      assert EncodeOption(v.options[0]) == [53, 1] + [number];
    }
    assert EncodeArea(v) == [99, 130, 83, 99, 53, 1, number, 255];
    MessageTypeIsDeclared(fixed, v);
    hide MessageTypeOf;
  }
}
