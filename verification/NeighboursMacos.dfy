/** The macOS neighbour table: the routing message that writes an entry and the dump that lists them. */
module NeighboursMacos {
  import opened Bytes
  import opened BsdRoute
  import opened Neighbours
  import Packet

  const RT_MSGHDR := 92
  const RTM_ADD := 1
  const RTM_VERSION := 5
  const RTV_EXPIRE := 4
  const STATIC_FLAGS := 0x0C04

  /** The entry a message's sockaddrs name, if they name a usable one of the family asked for. */
  function EntryOf(sockaddrs: SockaddrSet, index: nat, family: Packet.Family): Option<Neighbour> {
    var ip := if sockaddrs.destination.Some? && sockaddrs.destination.value != []
      then AddressOf(sockaddrs.destination.value) else None;
    var mac := if sockaddrs.gateway.Some? && sockaddrs.gateway.value != [] then LinkAddressOf(sockaddrs.gateway.value)
      else None;
    if ip.None? || mac.None? then None
    else if !NamesANeighbour(ip.value.packed) || ip.value.family != family then None
    else Some(Neighbour(ip.value.packed, mac.value, index, OTHER, family))
  }

  function EntryIn(message: bytes, family: Packet.Family): Option<Neighbour>
    requires |message| >= RT_MSGHDR
  {
    EntryOf(Named(SplitFrom(message[RT_MSGHDR..], ReadI32Le(message, 12), 0)), ReadU16Le(message, 4), family)
  }

  function ParseDump(data: bytes, family: Packet.Family): seq<Neighbour>
    decreases |data|
  {
    if |data| < RT_MSGHDR then []
    else
      var length := ReadU16Le(data, 0);
      if length < RT_MSGHDR || length > |data| then []
      else Listed(EntryIn(data[..length], family)) + ParseDump(Drop(data, RoundUp(length)), family)
  }

  lemma DumpStep(data: bytes, position: nat, length: nat, family: Packet.Family)
    requires position + RT_MSGHDR <= |data| && length == ReadU16Le(data, position)
    ensures length < RT_MSGHDR || position + length > |data| ==> ParseDump(Drop(data, position), family) == []
    ensures RT_MSGHDR <= length <= |data| - position ==>
              ParseDump(Drop(data, position), family)
              == Listed(EntryIn(data[position..position + length], family))
                + ParseDump(Drop(data, position + RoundUp(length)), family)
  {
    var rest := data[position..];
    assert ReadU16Le(rest, 0) == length;
    if RT_MSGHDR <= length <= |data| - position {
      assert rest[..length] == data[position..position + length];
      assert Drop(rest, RoundUp(length)) == Drop(data, position + RoundUp(length));
    }
  }

  lemma TooShort(data: bytes, position: nat, family: Packet.Family)
    ensures position + RT_MSGHDR > |data| ==> ParseDump(Drop(data, position), family) == []
  {
  }

  /** One message of the dump, its length already checked. */
  method ReadEntry(message: bytes, family: Packet.Family) returns (entry: Option<Neighbour>)
    requires |message| >= RT_MSGHDR
    ensures entry == EntryIn(message, family)
  {
    var sockaddrs := SplitSockaddrs(message[RT_MSGHDR..], ReadI32Le(message, 12));
    entry := EntryOf(sockaddrs, ReadU16Le(message, 4), family);
  }

  method ParseNeighbourDump(data: bytes, family: Packet.Family) returns (found: seq<Neighbour>)
    ensures found == ParseDump(data, family)
  {
    found := [];
    var position: nat := 0;
    assert Drop(data, 0) == data;
    hide ParseDump, Drop, EntryIn, Listed;
    while position + RT_MSGHDR <= |data|
      invariant found + ParseDump(Drop(data, position), family) == ParseDump(data, family)
      decreases |data| - position
    {
      var length := ReadU16Le(data, position);
      DumpStep(data, position, length, family);
      if length < RT_MSGHDR || position + length > |data| {
        return;
      }
      var entry := ReadEntry(data[position..position + length], family);
      position := position + RoundUp(length);
      Regrouped(found, Listed(entry), ParseDump(Drop(data, position), family));
      found := found + Listed(entry);
    }
    TooShort(data, position, family);
  }

  // ---------------------------------------------------------------- messages as the kernel lays them out

  /** A header is taken as it comes; only its length, index and mask are read. */
  datatype Row = Row(header: bytes, slots: seq<Option<bytes>>)

  predicate ValidRow(row: Row) {
    && |row.header| == RT_MSGHDR
    && ValidSlots(row.slots)
    && ReadU16Le(row.header, 0) == RT_MSGHDR + |Layout(row.slots, 0)|
    && MaskOf(ReadI32Le(row.header, 12), row.slots)
  }

  function EncodeRow(row: Row): bytes
    requires ValidRow(row)
  {
    row.header + Layout(row.slots, 0)
  }

  function EncodeRows(rows: seq<Row>): bytes
    requires forall i :: 0 <= i < |rows| ==> ValidRow(rows[i])
  {
    if |rows| == 0 then [] else EncodeRow(rows[0]) + EncodeRows(rows[1..])
  }

  function NamedBy(row: Row, family: Packet.Family): Option<Neighbour>
    requires ValidRow(row)
  {
    EntryOf(Named(Present(row.slots, 0)), ReadU16Le(row.header, 4), family)
  }

  function Kept(rows: seq<Row>, family: Packet.Family): seq<Neighbour>
    requires forall i :: 0 <= i < |rows| ==> ValidRow(rows[i])
  {
    if |rows| == 0 then [] else Listed(NamedBy(rows[0], family)) + Kept(rows[1..], family)
  }

  lemma ReadsHeader(header: bytes, payload: bytes)
    requires |header| == RT_MSGHDR
    ensures var message := header + payload;
            && message[RT_MSGHDR..] == payload
            && ReadU16Le(message, 0) == ReadU16Le(header, 0)
            && ReadU16Le(message, 4) == ReadU16Le(header, 4)
            && ReadI32Le(message, 12) == ReadI32Le(header, 12)
  {
    var message := header + payload;
    assert message[0] == header[0] && message[1] == header[1] && message[4] == header[4] && message[5] == header[5];
    assert message[12] == header[12] && message[13] == header[13] && message[14] == header[14]
      && message[15] == header[15];
  }

  lemma RowReads(row: Row, family: Packet.Family)
    requires ValidRow(row)
    ensures EntryIn(EncodeRow(row), family) == NamedBy(row, family)
  {
    var layout := Layout(row.slots, 0);
    ReadsHeader(row.header, layout);
    SplitsLayout(row.slots, ReadI32Le(row.header, 12), 0, []);
    assert layout + [] == layout;
  }

  lemma WalksMessage(message: bytes, after: bytes, family: Packet.Family)
    requires |message| >= RT_MSGHDR && ReadU16Le(message, 0) == |message| && |message| % 4 == 0
    ensures ParseDump(message + after, family) == Listed(EntryIn(message, family)) + ParseDump(after, family)
  {
    var data := message + after;
    assert data[0] == message[0] && data[1] == message[1];
    assert data[..|message|] == message;
    RoundUpAligns(|message|);
    assert Drop(data, |message|) == after;
  }

  lemma WalksParts(header: bytes, layout: bytes, after: bytes, family: Packet.Family)
    requires |header| == RT_MSGHDR && |layout| % 4 == 0 && ReadU16Le(header, 0) == RT_MSGHDR + |layout|
    ensures ParseDump(header + layout + after, family)
            == Listed(EntryIn(header + layout, family)) + ParseDump(after, family)
  {
    ReadsHeader(header, layout);
    WalksMessage(header + layout, after, family);
  }

  lemma WalksRow(row: Row, after: bytes, family: Packet.Family)
    requires ValidRow(row)
    ensures ParseDump(EncodeRow(row) + after, family) == Listed(NamedBy(row, family)) + ParseDump(after, family)
  {
    RowReads(row, family);
    LayoutIsAligned(row.slots, 0);
    WalksParts(row.header, Layout(row.slots, 0), after, family);
  }

  /**
   * A dump of any messages, each with any subset of its sockaddrs, reads as exactly the entries they name, in order.
   */
  lemma {:induction false} DumpListsItsRows(rows: seq<Row>, after: bytes, family: Packet.Family)
    requires forall i :: 0 <= i < |rows| ==> ValidRow(rows[i])
    ensures ParseDump(EncodeRows(rows) + after, family) == Kept(rows, family) + ParseDump(after, family)
  {
    if |rows| == 0 {
      assert [] + after == after;
    } else {
      assert EncodeRows(rows) + after == EncodeRow(rows[0]) + (EncodeRows(rows[1..]) + after);
      WalksRow(rows[0], EncodeRows(rows[1..]) + after, family);
      DumpListsItsRows(rows[1..], after, family);
      Regrouped(Listed(NamedBy(rows[0], family)), Kept(rows[1..], family), ParseDump(after, family));
    }
  }

  // ---------------------------------------------------------------- writing an entry

  /** The version and kind, a zero index, and the flags. */
  function HeaderLead(kind: byte): (r: bytes)
    ensures |r| == 10 && r[2] == 0 && r[3] == 0
  {
    [RTM_VERSION, kind, 0, 0, 0, 0] + U32Le(STATIC_FLAGS)
  }

  /** The sender, the request number, and metrics that never expire. */
  function HeaderTail(pid: int, sequence: int): (r: bytes)
    ensures |r| == 76
  {
    U32Le(pid) + U32Le(sequence) + U32Le(0) + U32Le(0) + U32Le(RTV_EXPIRE) + Zeros(56)
  }

  function Header(kind: byte, addrs: nat, payloadLength: nat, pid: int, sequence: int): (r: bytes)
    ensures |r| == RT_MSGHDR
  {
    U16Le(RT_MSGHDR + payloadLength) + HeaderLead(kind) + (U32Le(addrs) + HeaderTail(pid, sequence))
  }

  function BuildAddMessage(ip: bytes, mac: bytes, ifindex: nat, pid: int, sequence: int): bytes
    requires |ip| == 4 && |mac| == 6 && IsU16(ifindex) && IsI32(pid) && IsI32(sequence)
  {
    var addresses := PackSockaddrIn(ip) + PackSockaddrDl(ifindex, mac);
    Header(RTM_ADD, 3, |addresses|, pid, sequence) + addresses
  }

  function StaticSlots(ip: bytes, mac: bytes, ifindex: nat): seq<Option<bytes>>
    requires |mac| <= 12
  {
    [Some(PackSockaddrIn(ip)), Some(PackSockaddrDl(ifindex, mac)), None, None, None, None, None, None]
  }

  lemma HeaderReads(kind: byte, addrs: nat, payloadLength: nat, pid: int, sequence: int)
    requires IsI32(addrs) && IsU16(RT_MSGHDR + payloadLength)
    ensures var h := Header(kind, addrs, payloadLength, pid, sequence);
            ReadU16Le(h, 0) == RT_MSGHDR + payloadLength && ReadU16Le(h, 4) == 0 && ReadI32Le(h, 12) == addrs
  {
    var size, lead, mask, tail :=
      U16Le(RT_MSGHDR + payloadLength), HeaderLead(kind), U32Le(addrs), HeaderTail(pid, sequence);
    U16LeReads(RT_MSGHDR + payloadLength, lead + (mask + tail));
    U32LeReads(addrs, []);
    FieldReads(size + lead, mask, tail);
    var h := size + lead + (mask + tail);
    assert Header(kind, addrs, payloadLength, pid, sequence) == h;
    hide Header, HeaderLead, HeaderTail, U16Le, U32Le, ReadI32Le, ReadU32Le;
    assert mask + [] == mask;
    assert h == size + (lead + (mask + tail));
    assert h[4] == lead[2] && h[5] == lead[3];
  }

  lemma {:induction false} LayoutOfNone(slots: seq<Option<bytes>>, slot: nat)
    requires slot <= |slots| && forall i :: slot <= i < |slots| ==> slots[i] == None
    ensures Layout(slots, slot) == []
    decreases |slots| - slot
  {
    if slot == |slots| {
    } else {
      LayoutOfNone(slots, slot + 1);
    }
  }

  lemma StaticLayout(ip: bytes, mac: bytes, ifindex: nat)
    requires |ip| == 4 && |mac| == 6
    ensures ValidSlots(StaticSlots(ip, mac, ifindex))
    ensures Layout(StaticSlots(ip, mac, ifindex), 0) == PackSockaddrIn(ip) + PackSockaddrDl(ifindex, mac)
    ensures MaskOf(3, StaticSlots(ip, mac, ifindex))
  {
    forall i | 0 <= i < SLOTS ensures Names(3, i) <==> i < 2 {
      if i >= 2 {
        assert Names(3, i) == Names(1, i - 1) == Names(0, i - 2);
        NoneNamed(i - 2);
      }
    }
    var slots := StaticSlots(ip, mac, ifindex);
    LayoutOfNone(slots, 2);
    var dst, gateway := PackSockaddrIn(ip), PackSockaddrDl(ifindex, mac);
    assert IsSockaddr(dst) && |dst| == 16 && IsSockaddr(gateway) && |gateway| == 20;
    assert Padded(dst) == dst && Padded(gateway) == gateway;
    assert Layout(slots, 1) == gateway + [];
    assert Layout(slots, 0) == dst + Layout(slots, 1);
    hide Names, Layout, Padded, IsSockaddr, PackSockaddrIn, PackSockaddrDl;
  }

  lemma StaticAddresses(ip: bytes, mac: bytes, ifindex: nat)
    requires |ip| == 4 && |mac| == 6
    ensures AddressOf(PackSockaddrIn(ip)) == Some(IpAddress(Packet.IPv4, ip))
    ensures LinkAddressOf(PackSockaddrDl(ifindex, mac)) == FormatMac(mac)
  {
    assert PackSockaddrIn(ip)[4..8] == ip;
    assert PackSockaddrDl(ifindex, mac)[8..14] == mac;
  }

  /**
   * The write message reads back as the one entry it asks for, if and only if that address can name a host and the
   * hardware address is not zero. Its interface reads as 0: a write names the interface in the gateway, a dump in
   * the header.
   */
  lemma AddMessageNamesItsEntry(ip: bytes, mac: bytes, ifindex: nat, pid: int, sequence: int, family: Packet.Family)
    requires |ip| == 4 && |mac| == 6 && IsU16(ifindex) && IsI32(pid) && IsI32(sequence)
    ensures ParseDump(BuildAddMessage(ip, mac, ifindex, pid, sequence), family)
         == if NamesANeighbour(ip) && mac != Zeros(6) && family.IPv4? then [Neighbour(ip, mac, 0, OTHER, Packet.IPv4)]
            else []
  {
    var slots := StaticSlots(ip, mac, ifindex);
    StaticLayout(ip, mac, ifindex);
    var header := Header(RTM_ADD, 3, |Layout(slots, 0)|, pid, sequence);
    HeaderReads(RTM_ADD, 3, |Layout(slots, 0)|, pid, sequence);
    var row := Row(header, slots);
    var message := BuildAddMessage(ip, mac, ifindex, pid, sequence);
    assert message == EncodeRow(row);
    WalksRow(row, [], family);
    assert message + [] == message;
    StaticAddresses(ip, mac, ifindex);
    StaticPresent(ip, mac, ifindex);
  }

  lemma StaticPresent(ip: bytes, mac: bytes, ifindex: nat)
    requires |ip| == 4 && |mac| == 6
    ensures var sockaddrs := Named(Present(StaticSlots(ip, mac, ifindex), 0));
            sockaddrs.destination == Some(PackSockaddrIn(ip)) && sockaddrs.gateway == Some(PackSockaddrDl(ifindex, mac))
  {
    var slots := StaticSlots(ip, mac, ifindex);
    assert slots[0].Some? && slots[1].Some?;
  }

  // ---------------------------------------------------------------- what one message says

  /**
   * Two sockaddrs name a neighbour if and only if the destination holds a whole address of the family asked for that
   * can name a host, and the gateway a hardware address, not all zero; the interface is the header's.
   */
  lemma EntryExactly(destination: bytes, gateway: bytes, others: SockaddrSet, index: nat, family: Packet.Family)
    requires destination != [] && gateway != []
    ensures var ip, mac := AddressOf(destination), LinkAddressOf(gateway);
            EntryOf(others.(destination := Some(destination), gateway := Some(gateway)), index, family)
            == if ip.Some? && mac.Some? && NamesANeighbour(ip.value.packed) && ip.value.family == family
               then Some(Neighbour(ip.value.packed, mac.value, index, OTHER, family)) else None
    ensures EntryOf(others.(destination := None), index, family) == None
    ensures EntryOf(others.(gateway := None), index, family) == None
  {
    hide AddressOf, LinkAddressOf, NamesANeighbour;
  }

  /** The write message byte by byte: RTM_ADD of version 5, flags HOST, LLINFO and STATIC, addresses DST and GATEWAY. */
  lemma AddMessageOnTheWire(ip: bytes, mac: bytes, ifindex: nat, pid: int, sequence: int)
    requires |ip| == 4 && |mac| == 6 && IsU16(ifindex) && IsI32(pid) && IsI32(sequence)
    ensures BuildAddMessage(ip, mac, ifindex, pid, sequence)
         == [128, 0, 5, 1, 0, 0, 0, 0, 0x04, 0x0C, 0, 0] + ([3, 0, 0, 0] + (U32Le(pid) + U32Le(sequence) + Zeros(8)
            + [4, 0, 0, 0] + Zeros(56)))
            + ([16, 2, 0, 0] + ip + [0, 0, 0, 0, 0, 0, 0, 0]
              + ([20, 18] + U16Le(ifindex) + [6, 0, 6, 0] + mac + [0, 0, 0, 0, 0, 0]))
  {
    PackedSockaddrs(ifindex, mac, ip);
    assert U16Le(RT_MSGHDR + 36) + HeaderLead(RTM_ADD) == [128, 0, 5, 1, 0, 0, 0, 0, 0x04, 0x0C, 0, 0];
    assert U32Le(0) + U32Le(0) == Zeros(8) && U32Le(3) == [3, 0, 0, 0] && U32Le(RTV_EXPIRE) == [4, 0, 0, 0];
    assert HeaderTail(pid, sequence)
      == U32Le(pid) + U32Le(sequence) + (U32Le(0) + U32Le(0)) + U32Le(RTV_EXPIRE) + Zeros(56);
    hide HeaderLead, HeaderTail, PackSockaddrIn, PackSockaddrDl, U32Le, U16Le, Zeros;
  }
}
