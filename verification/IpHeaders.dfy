/** IP headers laid out field by field: RFC 791 section 3.1, and the fixed header of RFC 8200 section 3. */
module IpHeaders {
  import opened Bytes

  datatype IpHeader =
    | V4(service: byte, total: nat, id: bytes, fragment: nat, ttl: byte, protocol: byte, sum: bytes,
         source: bytes, destination: bytes, options: bytes)
    | V6(low: byte, flow: bytes, length: nat, protocol: byte, hops: byte, source: bytes, destination: bytes)

  predicate ValidHeader(h: IpHeader) {
    match h
    case V4(_, total, id, fragment, _, _, sum, source, destination, options) =>
      && IsU16(total) && |id| == 2 && IsU16(fragment) && |sum| == 2 && |source| == 4 && |destination| == 4
      && |options| % 4 == 0 && |options| <= 40
    case V6(low, flow, length, _, _, source, destination) =>
      low < 16 && |flow| == 3 && IsU16(length) && |source| == 16 && |destination| == 16
  }

  function EncodeHeader(h: IpHeader): bytes
    requires ValidHeader(h)
  {
    match h
    case V4(service, total, id, fragment, ttl, protocol, sum, source, destination, options) =>
      [0x40 + (20 + |options|) / 4, service] + U16Be(total) + id + U16Be(fragment) + [ttl, protocol] + sum
      + source + destination + options
    case V6(low, flow, length, protocol, hops, source, destination) =>
      [0x60 + low] + flow + U16Be(length) + [protocol, hops] + source + destination
  }

  /** Where each field of an IPv4 header stands. */
  lemma Ipv4Fields(h: IpHeader, rest: bytes)
    requires h.V4? && ValidHeader(h)
    ensures var data := EncodeHeader(h) + rest;
            && |EncodeHeader(h)| == 20 + |h.options|
            && data[0] / 16 == 4 && data[0] % 16 * 4 == 20 + |h.options|
            && ReadU16Be(data, 2) == h.total && ReadU16Be(data, 6) == h.fragment
            && data[9] == h.protocol && data[12..16] == h.source && data[16..20] == h.destination
            && data[20 + |h.options|..] == rest
  {
    var head := [0x40 + (20 + |h.options|) / 4, h.service] + U16Be(h.total) + h.id + U16Be(h.fragment);
    var mid := [h.ttl, h.protocol] + h.sum;
    var data := EncodeHeader(h) + rest;
    assert data == head + (mid + (h.source + (h.destination + (h.options + rest))));
    assert data[..8] == head && data[8..12] == mid;
    assert data[2] == head[2] && data[3] == head[3] && data[6] == head[6] && data[7] == head[7];
    assert data[9] == mid[1];
    var words := (20 + |h.options|) / 4;
    assert data[0] == 0x40 + words && 5 <= words <= 15;
  }

  lemma Ipv6Fields(h: IpHeader, rest: bytes)
    requires h.V6? && ValidHeader(h)
    ensures var data := EncodeHeader(h) + rest;
            && |EncodeHeader(h)| == 40
            && data[0] / 16 == 6
            && data[6] == h.protocol && data[8..24] == h.source && data[24..40] == h.destination
            && data[40..] == rest
  {
    var head := [0x60 + h.low] + h.flow + U16Be(h.length) + [h.protocol, h.hops];
    var data := EncodeHeader(h) + rest;
    assert data == head + (h.source + (h.destination + rest));
    assert data[..8] == head && data[0] == head[0] && data[6] == head[6];
  }

  /** Every 20 to 60 bytes that say version 4 and their own length are such a header. */
  lemma EveryIpv4Header(data: bytes) returns (h: IpHeader)
    requires 20 <= |data| && data[0] / 16 == 4 && |data| == data[0] % 16 * 4
    ensures h.V4? && ValidHeader(h) && EncodeHeader(h) == data
  {
    h := V4(data[1], ReadU16Be(data, 2), data[4..6], ReadU16Be(data, 6), data[8], data[9], data[10..12],
            data[12..16], data[16..20], data[20..]);
    U16BeOfRead(data, 2);
    U16BeOfRead(data, 6);
    assert (20 + |h.options|) / 4 == data[0] % 16;
    assert data[..2] == [data[0], data[1]] && data[8..10] == [data[8], data[9]];
    assert data == data[..2] + data[2..4] + data[4..6] + data[6..8] + data[8..10] + data[10..12] + data[12..16]
                   + data[16..20] + data[20..];
  }

  lemma EveryIpv6Header(data: bytes) returns (h: IpHeader)
    requires |data| == 40 && data[0] / 16 == 6
    ensures h.V6? && ValidHeader(h) && EncodeHeader(h) == data
  {
    h := V6(data[0] % 16, data[1..4], ReadU16Be(data, 4), data[6], data[7], data[8..24], data[24..40]);
    U16BeOfRead(data, 4);
    assert data[..1] == [data[0]] && data[6..8] == [data[6], data[7]];
    assert data == data[..1] + data[1..4] + data[4..6] + data[6..8] + data[8..24] + data[24..40];
  }

  lemma U16BeOfRead(data: bytes, at: nat)
    requires at + 2 <= |data|
    ensures U16Be(ReadU16Be(data, at)) == data[at..at + 2]
  {
  }
}
