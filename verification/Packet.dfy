/**
 * ICMP echo encoding and decoding, and the probe an ICMP Time Exceeded message quotes (RFC 792, RFC 4443 section
 * 3.3).
 */
module Packet {
  import opened Bytes
  import opened IpHeaders
  import Checksum

  datatype Family = IPv4 | IPv6

  const ECHO_REQUEST_V4 := 8
  const ECHO_REPLY_V4 := 0
  const ECHO_REQUEST_V6 := 128
  const ECHO_REPLY_V6 := 129
  const TIME_EXCEEDED_V4 := 11
  const TIME_EXCEEDED_V6 := 3
  const HEADER_SIZE := 8
  const TOKEN_SIZE := 8
  const MAGIC: bytes := [0x49, 0x50, 0x53, 0x43, 0x4F, 0x55, 0x54, 0x31]
  const MIN_PAYLOAD_SIZE := 16
  const IPV4_MIN_HEADER_SIZE := 20
  const IPV6_HEADER_SIZE := 40
  const MAX_IP_LENGTH := 65535
  const MAX_PAYLOAD_SIZE_IPV4 := MAX_IP_LENGTH - IPV4_MIN_HEADER_SIZE - HEADER_SIZE
  const MAX_PAYLOAD_SIZE_IPV6 := MAX_IP_LENGTH - HEADER_SIZE

  datatype EchoPayload = EchoPayload(token: bytes, filler: bytes)

  datatype ParsedReply = ParsedReply(icmpType: byte, code: byte, identifier: nat, sequence: nat,
                                     payload: Option<EchoPayload>) {
    function Token(): Option<bytes> {
      if payload.Some? then Some(payload.value.token) else None
    }
  }

  datatype EchoRequest = EchoRequest(datagram: bytes, token: bytes)

  datatype PacketError = SequenceRange | IdentifierRange | PayloadTooLarge | TokenLength

  datatype QuotedRequest = QuotedRequest(request: ParsedReply, destination: bytes)

  // ---------------------------------------------------------------- payload

  /** The record's own field rules. */
  predicate ValidPayload(p: EchoPayload) {
    |p.token| == TOKEN_SIZE && |p.filler| <= MAX_PAYLOAD_SIZE_IPV6 - MIN_PAYLOAD_SIZE
  }

  function PayloadToBytes(p: EchoPayload): bytes {
    MAGIC + p.token + p.filler
  }

  function PayloadFromBytes(raw: bytes): Option<EchoPayload> {
    if !(MIN_PAYLOAD_SIZE <= |raw| <= MAX_PAYLOAD_SIZE_IPV6) || !(MAGIC <= raw) then None
    else Some(EchoPayload(raw[8..16], raw[16..]))
  }

  /** Reading and writing a payload are inverse: the bytes read as `p` are exactly the bytes of a valid `p`. */
  lemma PayloadRoundTrip(raw: bytes, p: EchoPayload)
    ensures PayloadFromBytes(raw) == Some(p) <==> ValidPayload(p) && raw == PayloadToBytes(p)
  {
    if PayloadFromBytes(raw) == Some(p) {
      assert raw == raw[..8] + raw[8..16] + raw[16..];
    }
    if ValidPayload(p) && raw == PayloadToBytes(p) {
      assert raw[..8] == MAGIC && raw[8..16] == p.token && raw[16..] == p.filler;
    }
  }

  // ---------------------------------------------------------------- requests

  function Header(icmpType: byte, code: byte, sum: nat, identifier: nat, sequence: nat): (r: bytes)
    ensures |r| == HEADER_SIZE
  {
    [icmpType, code] + U16Be(sum) + U16Be(identifier) + U16Be(sequence)
  }

  function MaxPayloadSize(family: Family): nat {
    if family.IPv6? then MAX_PAYLOAD_SIZE_IPV6 else MAX_PAYLOAD_SIZE_IPV4
  }

  function RequestType(family: Family): byte {
    if family.IPv6? then ECHO_REQUEST_V6 else ECHO_REQUEST_V4
  }

  function ReplyType(family: Family): byte {
    if family.IPv6? then ECHO_REPLY_V6 else ECHO_REPLY_V4
  }

  function PayloadFor(payloadSize: int, token: bytes): EchoPayload {
    EchoPayload(token, Zeros(if payloadSize > MIN_PAYLOAD_SIZE then payloadSize - MIN_PAYLOAD_SIZE else 0))
  }

  /** `token` is the caller's, or the fresh random one. */
  function BuildEchoRequest(sequence: int, payloadSize: int, family: Family, identifier: int,
                            token: bytes): Result<EchoRequest, PacketError> {
    if !IsU16(sequence) then Err(SequenceRange)
    else if !IsU16(identifier) then Err(IdentifierRange)
    else if payloadSize > MaxPayloadSize(family) then Err(PayloadTooLarge)
    else if |token| != TOKEN_SIZE then Err(TokenLength)
    else
      var payload := PayloadToBytes(PayloadFor(payloadSize, token));
      var blank := Header(RequestType(family), 0, 0, identifier, sequence) + payload;
      if family.IPv6? then Ok(EchoRequest(blank, token))
      else Ok(EchoRequest(Header(RequestType(family), 0, Checksum.Sum16(blank), identifier, sequence) + payload, token))
  }

  /**
   * A request is built exactly when its fields fit, and is then at least the minimum payload and at most one IP
   * datagram.
   */
  lemma RequestFits(sequence: int, payloadSize: int, family: Family, identifier: int, token: bytes)
    ensures var built := BuildEchoRequest(sequence, payloadSize, family, identifier, token);
            && (built.Ok? <==> && 0 <= sequence < 65536 && 0 <= identifier < 65536
                               && payloadSize <= (if family.IPv4? then 65507 else 65527) && |token| == 8)
            && (built.Ok? ==>
                  && built.value.token == token
                  && |built.value.datagram| == 8 + (if payloadSize > 16 then payloadSize else 16)
                  && |built.value.datagram| + (if family.IPv4? then 20 else 0) <= 65535
                  && ReadHeader(built.value.datagram).payload.value.token == token)
  {
    if BuildEchoRequest(sequence, payloadSize, family, identifier, token).Ok? {
      var payload := PayloadFor(payloadSize, token);
      var datagram := BuildEchoRequest(sequence, payloadSize, family, identifier, token).value.datagram;
      assert datagram[HEADER_SIZE..] == PayloadToBytes(payload);
      PayloadRoundTrip(PayloadToBytes(payload), payload);
    }
  }

  /**
   * What a request carries: its family's type, no code, its identifier and sequence, then the mark "IPSCOUT1", the
   * token and zeros; no checksum on IPv6, where the kernel fills it in.
   */
  lemma RequestOnTheWire(sequence: int, payloadSize: int, family: Family, identifier: int, token: bytes)
    requires BuildEchoRequest(sequence, payloadSize, family, identifier, token).Ok?
    ensures var datagram := BuildEchoRequest(sequence, payloadSize, family, identifier, token).value.datagram;
            && |datagram| >= 24
            && datagram[0] == (if family.IPv6? then 128 else 8) && datagram[1] == 0
            && (family.IPv6? ==> datagram[2] == 0 && datagram[3] == 0)
            && datagram[4] as int * 256 + datagram[5] == identifier
            && datagram[6] as int * 256 + datagram[7] == sequence
            && datagram[8..16] == [0x49, 0x50, 0x53, 0x43, 0x4F, 0x55, 0x54, 0x31]
            && datagram[16..24] == token
            && forall i :: 24 <= i < |datagram| ==> datagram[i] == 0
  {
    var sum := BuiltIsRequestBytes(sequence, payloadSize, family, identifier, token);
    var datagram := BuildEchoRequest(sequence, payloadSize, family, identifier, token).value.datagram;
    var payload := PayloadFor(payloadSize, token);
    var head := Header(RequestType(family), 0, sum, identifier, sequence);
    assert datagram == head + (MAGIC + (token + payload.filler));
    assert forall i :: 0 <= i < 8 ==> datagram[i] == head[i];
    assert family.IPv6? ==> sum == 0;
  }

  lemma ChecksumField(icmpType: byte, sum: nat, identifier: nat, sequence: nat, payload: bytes)
    ensures var blank := Header(icmpType, 0, 0, identifier, sequence) + payload;
            && ReadU16Be(blank, 2) == 0
            && Header(icmpType, 0, sum, identifier, sequence) + payload == Checksum.Place(blank, 2, sum)
  {
    var blank := Header(icmpType, 0, 0, identifier, sequence) + payload;
    assert blank[..2] == [icmpType, 0];
    assert blank[4..] == U16Be(identifier) + U16Be(sequence) + payload;
  }

  /** Every IPv4 request carries a checksum its receiver accepts. */
  lemma RequestChecksumVerifies(sequence: int, payloadSize: int, identifier: int, token: bytes)
    requires BuildEchoRequest(sequence, payloadSize, IPv4, identifier, token).Ok?
    ensures Checksum.Sum16(BuildEchoRequest(sequence, payloadSize, IPv4, identifier, token).value.datagram) == 0
  {
    var payload := PayloadToBytes(PayloadFor(payloadSize, token));
    var blank := Header(RequestType(IPv4), 0, 0, identifier, sequence) + payload;
    var sum := Checksum.Sum16(blank);
    ChecksumField(RequestType(IPv4), sum, identifier, sequence, payload);
    Checksum.ReceiverAccepts(blank, 2, sum);
  }

  // ---------------------------------------------------------------- replies

  function Ipv4HeaderLength(datagram: bytes): (r: Option<nat>)
    ensures r.Some? ==> 20 <= r.value <= 60 && |datagram| >= 20
  {
    if |datagram| < IPV4_MIN_HEADER_SIZE || datagram[0] / 16 != 4 then None
    else
      var headerLen := datagram[0] % 16 * 4;
      if headerLen >= IPV4_MIN_HEADER_SIZE then Some(headerLen) else None
  }

  function StripIpHeader(datagram: bytes): bytes {
    var headerLen := Ipv4HeaderLength(datagram);
    if headerLen.None? || headerLen.value >= |datagram| then datagram else datagram[headerLen.value..]
  }

  function ReadHeader(body: bytes): ParsedReply
    requires |body| >= HEADER_SIZE
  {
    ParsedReply(body[0], body[1], ReadU16Be(body, 4), ReadU16Be(body, 6), PayloadFromBytes(body[HEADER_SIZE..]))
  }

  function ParseEchoReply(datagram: bytes): Option<ParsedReply> {
    var body := StripIpHeader(datagram);
    if |body| < HEADER_SIZE then None else Some(ReadHeader(body))
  }

  predicate IsEchoReply(parsed: ParsedReply, family: Family) {
    parsed.icmpType == ReplyType(family)
  }

  predicate IsTimeExceeded(datagram: bytes, family: Family) {
    var body := StripIpHeader(datagram);
    |body| > 0 && body[0] == TimeExceededType(family)
  }

  function TimeExceededType(family: Family): byte {
    if family.IPv6? then TIME_EXCEEDED_V6 else TIME_EXCEEDED_V4
  }

  function ParseEchoRequest(datagram: bytes, family: Family): Option<ParsedReply> {
    if |datagram| < HEADER_SIZE then None
    else
      var parsed := ParseEchoReply(datagram);
      if parsed.Some? && parsed.value.icmpType == RequestType(family) then parsed else None
  }

  function QuotedHeader(body: bytes, family: Family): Option<(bytes, nat)> {
    var quoted := if |body| < HEADER_SIZE then [] else body[HEADER_SIZE..];
    if family.IPv6? then
      if |quoted| < IPV6_HEADER_SIZE || quoted[0] / 16 != 6 then None else Some((quoted, IPV6_HEADER_SIZE))
    else
      var headerLen := Ipv4HeaderLength(quoted);
      if headerLen.None? then None else Some((quoted, headerLen.value))
  }

  function ProtocolOf(header: bytes, family: Family): byte
    requires |header| >= 20
  {
    if family.IPv6? then header[6] else header[9]
  }

  function IcmpProtocol(family: Family): byte {
    if family.IPv6? then 58 else 1
  }

  function DestinationOf(header: bytes, family: Family): bytes
    requires |header| >= 20 && (family.IPv6? ==> |header| >= 40)
  {
    if family.IPv6? then header[24..40] else header[16..20]
  }

  function QuotedEchoRequest(datagram: bytes, family: Family): Option<QuotedRequest> {
    if !IsTimeExceeded(datagram, family) then None
    else
      var found := QuotedHeader(StripIpHeader(datagram), family);
      if found.None? then None
      else
        var (header, headerLen) := found.value;
        if ProtocolOf(header, family) != IcmpProtocol(family) then None
        else
          // A slice that starts past the end is empty.
          var request := ParseEchoRequest(if headerLen > |header| then [] else header[headerLen..], family);
          if request.None? then None else Some(QuotedRequest(request.value, DestinationOf(header, family)))
  }

  // ---------------------------------------------------------------- what comes back

  /** A whole IPv4 header of 20 to 60 bytes, options included. */
  predicate IsIpv4Header(h: bytes) {
    |h| >= IPV4_MIN_HEADER_SIZE && h[0] / 16 == 4 && |h| == h[0] % 16 * 4
  }

  predicate IsInnerHeader(h: bytes, family: Family) {
    if family.IPv6? then |h| == IPV6_HEADER_SIZE && h[0] / 16 == 6 else IsIpv4Header(h)
  }

  /** What a receiver sees in front of an ICMP message: nothing, or on IPv4 the IP header. */
  predicate IsOuterHeader(h: bytes, family: Family) {
    h == [] || (family.IPv4? && IsIpv4Header(h))
  }

  lemma StripsHeader(outer: bytes, message: bytes, family: Family)
    requires IsOuterHeader(outer, family) && |message| > 0 && message[0] / 16 != 4
    ensures StripIpHeader(outer + message) == message
  {
    if outer == [] {
      assert outer + message == message;
    } else {
      assert (outer + message)[|outer|..] == message;
    }
  }

  /** The request as built, its checksum left open. */
  function RequestBytes(icmpType: byte, sum: nat, identifier: nat, sequence: nat, payload: bytes): bytes {
    Header(icmpType, 0, sum, identifier, sequence) + payload
  }

  lemma HeaderReads(icmpType: byte, sum: nat, identifier: nat, sequence: nat, rest: bytes)
    requires IsU16(sequence) && IsU16(identifier)
    ensures ReadHeader(RequestBytes(icmpType, sum, identifier, sequence, rest))
         == ParsedReply(icmpType, 0, identifier, sequence, PayloadFromBytes(rest))
  {
    var data := RequestBytes(icmpType, sum, identifier, sequence, rest);
    assert data[HEADER_SIZE..] == rest;
    assert data[4] == identifier / 256 && data[5] == identifier % 256 && data[6] == sequence / 256
      && data[7] == sequence % 256;
  }

  /** A payload cut short is ours exactly while its token is whole. */
  lemma CutPayload(payload: EchoPayload, n: nat)
    requires ValidPayload(payload) && n <= |PayloadToBytes(payload)|
    ensures var cut := PayloadToBytes(payload)[..n];
            PayloadFromBytes(cut) == if n < MIN_PAYLOAD_SIZE then None
              else Some(EchoPayload(payload.token, payload.filler[..n - MIN_PAYLOAD_SIZE]))
  {
    if n >= MIN_PAYLOAD_SIZE {
      var kept := EchoPayload(payload.token, payload.filler[..n - MIN_PAYLOAD_SIZE]);
      assert PayloadToBytes(payload)[..n] == PayloadToBytes(kept);
      PayloadRoundTrip(PayloadToBytes(kept), kept);
    }
  }

  lemma BuiltIsRequestBytes(sequence: int, payloadSize: int, family: Family, identifier: int, token: bytes)
    returns (sum: nat)
    requires BuildEchoRequest(sequence, payloadSize, family, identifier, token).Ok?
    ensures BuildEchoRequest(sequence, payloadSize, family, identifier, token).value.datagram
         == RequestBytes(RequestType(family), sum, identifier, sequence, PayloadToBytes(PayloadFor(payloadSize, token)))
    ensures ValidPayload(PayloadFor(payloadSize, token))
    ensures family.IPv6? ==> sum == 0
  {
    var blank := Header(RequestType(family), 0, 0, identifier, sequence)
      + PayloadToBytes(PayloadFor(payloadSize, token));
    sum := if family.IPv6? then 0 else Checksum.Sum16(blank);
  }

  /**
   * A built request cut to `k` bytes still reads as that request; its token survives exactly when `k` reaches past
   * it.
   */
  lemma CutRequestReads(sequence: int, payloadSize: int, family: Family, identifier: int, token: bytes, k: nat)
    requires BuildEchoRequest(sequence, payloadSize, family, identifier, token).Ok?
    requires HEADER_SIZE <= k <= |BuildEchoRequest(sequence, payloadSize, family, identifier, token).value.datagram|
    ensures var cut := BuildEchoRequest(sequence, payloadSize, family, identifier, token).value.datagram[..k];
            var parsed := ParseEchoRequest(cut, family);
            && parsed.Some?
            && parsed.value.icmpType == (if family.IPv6? then 128 else 8) && parsed.value.code == 0
            && parsed.value.sequence == sequence && parsed.value.identifier == identifier
            && parsed.value.Token() == if k >= 24 then Some(token) else None
  {
    var sum := BuiltIsRequestBytes(sequence, payloadSize, family, identifier, token);
    var payload := PayloadFor(payloadSize, token);
    var cut := BuildEchoRequest(sequence, payloadSize, family, identifier, token).value.datagram[..k];
    var raw := PayloadToBytes(payload)[..k - HEADER_SIZE];
    assert cut == RequestBytes(RequestType(family), sum, identifier, sequence, raw);
    hide BuildEchoRequest, PayloadToBytes, PayloadFor, PayloadFromBytes, RequestBytes;
    HeaderReads(RequestType(family), sum, identifier, sequence, raw);
    CutPayload(payload, k - HEADER_SIZE);
    StripsHeader([], cut, family);
    assert [] + cut == cut;
  }

  /** A message is a Time Exceeded by its first byte alone, with or without the outer header IPv4 may deliver. */
  lemma FirstByteDecides(outer: bytes, message: bytes, family: Family)
    requires IsOuterHeader(outer, family) && |message| > 0 && message[0] / 16 != 4
    ensures IsTimeExceeded(outer + message, family) <==> message[0] == if family.IPv6? then 3 else 11
    ensures !IsTimeExceeded([], family)
  {
    StripsHeader(outer, message, family);
  }

  /** The header is of the family asked about. */
  predicate IsOf(h: IpHeader, family: Family) {
    ValidHeader(h) && (h.V6? <==> family.IPv6?)
  }

  lemma InnerFields(h: IpHeader, family: Family, message: bytes, rest: bytes)
    requires IsOf(h, family) && |message| == 8
    ensures var data := EncodeHeader(h) + rest;
            && IsInnerHeader(EncodeHeader(h), family)
            && ProtocolOf(data, family) == h.protocol && DestinationOf(data, family) == h.destination
            && |EncodeHeader(h)| <= |data|
            && QuotedHeader(message + data, family) == Some((data, |EncodeHeader(h)|))
            && data[|EncodeHeader(h)|..] == rest
  {
    var data := EncodeHeader(h) + rest;
    assert (message + data)[8..] == data;
    if h.V6? {
      Ipv6Fields(h, rest);
      Ipv6Fields(h, []);
    } else {
      Ipv4Fields(h, rest);
      Ipv4Fields(h, []);
    }
    assert EncodeHeader(h) + [] == EncodeHeader(h);
    hide EncodeHeader;
  }

  /** A Time Exceeded message is read down to whatever its quoted IP header carries, if that says ICMP. */
  lemma QuoteReads(family: Family, outer: bytes, timeExceeded: bytes, h: IpHeader, cut: bytes)
    requires |timeExceeded| == 8 && timeExceeded[0] == (if family.IPv6? then 3 else 11)
    requires IsOf(h, family) && IsOuterHeader(outer, family)
    ensures QuotedEchoRequest(outer + (timeExceeded + (EncodeHeader(h) + cut)), family)
         == if h.protocol != (if family.IPv6? then 58 else 1) || ParseEchoRequest(cut, family).None? then None
            else Some(QuotedRequest(ParseEchoRequest(cut, family).value, h.destination))
  {
    var data := EncodeHeader(h) + cut;
    var message := timeExceeded + data;
    StripsHeader(outer, message, family);
    InnerFields(h, family, timeExceeded, cut);
    assert IsTimeExceeded(outer + message, family);
    hide EncodeHeader, ParseEchoRequest, ProtocolOf, DestinationOf, QuotedHeader, IsTimeExceeded, StripIpHeader;
  }

  /**
   * A built request cut to `k` of its bytes, behind any inner IP header of its family, inside any Time Exceeded
   * message, with or without the outer header IPv4 may deliver: the quote is read exactly when the inner header's
   * protocol is ICMP's number, and it gives back the sequence, the identifier, that header's destination, and the
   * token exactly when `k` reaches it.
   */
  lemma QuotedProbeIsRecovered(sequence: int, payloadSize: int, family: Family, identifier: int, token: bytes,
                               k: nat, outer: bytes, timeExceeded: bytes, h: IpHeader)
    requires BuildEchoRequest(sequence, payloadSize, family, identifier, token).Ok?
    requires 8 <= k <= |BuildEchoRequest(sequence, payloadSize, family, identifier, token).value.datagram|
    requires |timeExceeded| == 8 && timeExceeded[0] == (if family.IPv6? then 3 else 11)
    requires IsOf(h, family) && IsOuterHeader(outer, family)
    ensures var datagram := BuildEchoRequest(sequence, payloadSize, family, identifier, token).value.datagram;
            var quoted := QuotedEchoRequest(outer + (timeExceeded + (EncodeHeader(h) + datagram[..k])), family);
            && (quoted.Some? <==> h.protocol == if family.IPv6? then 58 else 1)
            && (quoted.Some? ==>
                  && quoted.value.destination == h.destination
                  && quoted.value.request.icmpType == (if family.IPv6? then 128 else 8)
                  && quoted.value.request.sequence == sequence
                  && quoted.value.request.identifier == identifier
                  && quoted.value.request.Token() == if k >= 24 then Some(token) else None)
  {
    CutRequestReads(sequence, payloadSize, family, identifier, token, k);
    var datagram := BuildEchoRequest(sequence, payloadSize, family, identifier, token).value.datagram;
    QuoteReads(family, outer, timeExceeded, h, datagram[..k]);
  }

  /**
   * The peer's echo of a built request, its checksum and identifier rewritten freely on the way, with or without the
   * outer header IPv4 may deliver, reads as a reply carrying the sequence and the token that were sent.
   */
  lemma ReplyIsRecognised(sequence: int, payloadSize: int, family: Family, identifier: int, token: bytes,
                          outer: bytes, sum: nat, rewritten: nat)
    requires BuildEchoRequest(sequence, payloadSize, family, identifier, token).Ok?
    requires IsOuterHeader(outer, family) && IsU16(rewritten)
    ensures var datagram := BuildEchoRequest(sequence, payloadSize, family, identifier, token).value.datagram;
            var parsed := ParseEchoReply(outer + EchoOf(datagram, family, sum, rewritten));
            && parsed.Some?
            && IsEchoReply(parsed.value, family)
            && parsed.value.icmpType == (if family.IPv6? then 129 else 0)
            && parsed.value.sequence == sequence
            && parsed.value.identifier == rewritten
            && parsed.value.Token() == Some(token)
            && !IsTimeExceeded(outer + EchoOf(datagram, family, sum, rewritten), family)
  {
    var built := BuiltIsRequestBytes(sequence, payloadSize, family, identifier, token);
    var payload := PayloadFor(payloadSize, token);
    var raw := PayloadToBytes(payload);
    var datagram := BuildEchoRequest(sequence, payloadSize, family, identifier, token).value.datagram;
    EchoIsReply(family, built, identifier, sequence, raw, sum, rewritten);
    var reply := RequestBytes(ReplyType(family), sum, rewritten, sequence, raw);
    HeaderReads(ReplyType(family), sum, rewritten, sequence, raw);
    PayloadRoundTrip(raw, payload);
    assert payload.token == token;
    hide BuildEchoRequest, RequestBytes, PayloadFor, PayloadToBytes, PayloadFromBytes, EchoOf, ReadHeader, Header;
    StripsHeader(outer, reply, family);
  }

  lemma EchoIsReply(family: Family, built: nat, identifier: nat, sequence: nat, raw: bytes, sum: nat, rewritten: nat)
    ensures var request := RequestBytes(RequestType(family), built, identifier, sequence, raw);
            |request| >= 8 && EchoOf(request, family, sum, rewritten)
              == RequestBytes(ReplyType(family), sum, rewritten, sequence, raw)
    ensures var reply := RequestBytes(ReplyType(family), sum, rewritten, sequence, raw);
            |reply| >= 8 && reply[0] == ReplyType(family)
  {
    var request := RequestBytes(RequestType(family), built, identifier, sequence, raw);
    assert request[6..] == U16Be(sequence) + raw;
  }

  /** The peer's echo: the reply type of RFC 792 or RFC 4443, and all that followed the identifier. */
  function EchoOf(request: bytes, family: Family, sum: nat, rewritten: nat): bytes
    requires |request| >= 8
  {
    [if family.IPv6? then 129 else 0, 0] + U16Be(sum) + U16Be(rewritten) + request[6..]
  }
}
