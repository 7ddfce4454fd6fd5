/** The Linux neighbour table: the request that writes an entry and the dump that lists them. */
module NeighboursLinux {
  import opened Bytes
  import opened Netlink
  import opened Neighbours
  import Packet

  const NDMSG := 12
  const RTM_NEWNEIGH := 28
  const RTM_DELNEIGH := 29
  const NDA_DST := 1
  const NDA_LLADDR := 2
  const AF_INET: byte := 2
  const AF_INET6: byte := 10
  const NUD_PERMANENT := 0x80

  datatype DumpChunk = DumpChunk(entries: seq<Neighbour>, done: bool)

  function StateOf(state: nat): NeighbourState {
    if HasBit(state, 0x01) then INCOMPLETE
    else if HasBit(state, 0x02) then REACHABLE
    else if HasBit(state, 0x04) then STALE
    else if HasBit(state, 0x20) then FAILED
    else if HasBit(state, 0x80) then PERMANENT
    else OTHER
  }

  function FamilyOf(raw: byte): Option<Packet.Family> {
    if raw == AF_INET then Some(Packet.IPv4) else if raw == AF_INET6 then Some(Packet.IPv6) else None
  }

  /** inet_ntop reads an address of exactly its family's size. */
  function ReadAddress(raw: byte, value: bytes): Option<bytes> {
    if (raw == AF_INET && |value| == 4) || (raw == AF_INET6 && |value| == 16) then Some(value) else None
  }

  datatype EntryAddresses = EntryAddresses(ip: Option<bytes>, mac: Option<bytes>)

  function WithAttribute(found: EntryAddresses, a: Attribute, raw: byte): EntryAddresses {
    if a.kind == NDA_DST then
      var ip := ReadAddress(raw, a.value);
      if ip.Some? then found.(ip := ip) else found
    else if a.kind == NDA_LLADDR then found.(mac := FormatMac(a.value))
    else found
  }

  function AddressesIn(attributes: seq<Attribute>, raw: byte): EntryAddresses {
    if |attributes| == 0 then EntryAddresses(None, None)
    else WithAttribute(AddressesIn(attributes[..|attributes| - 1], raw), attributes[|attributes| - 1], raw)
  }

  method ReadAddressAttributes(payload: bytes, raw: byte) returns (found: EntryAddresses)
    ensures found == AddressesIn(AttributesIn(Drop(payload, NDMSG)), raw)
  {
    var attributes := IterAttributes(payload, NDMSG);
    found := EntryAddresses(None, None);
    for i := 0 to |attributes|
      invariant found == AddressesIn(attributes[..i], raw)
    {
      assert attributes[..i + 1][..i] == attributes[..i];
      var a := attributes[i];
      if a.kind == NDA_DST {
        var ip := ReadAddress(raw, a.value);
        if ip.Some? {
          found := found.(ip := ip);
        }
      } else if a.kind == NDA_LLADDR {
        found := found.(mac := FormatMac(a.value));
      }
    }
    assert attributes[..|attributes|] == attributes;
  }

  /** The entry a header and its attributes name, if they name a usable one. */
  function EntryOf(raw: byte, ifindex: int, state: nat, attributes: seq<Attribute>): Option<Neighbour> {
    if HasBit(state, 0x01) || HasBit(state, 0x20) then None
    else
      var family := FamilyOf(raw);
      if family.None? then None
      else
        var found := AddressesIn(attributes, raw);
        if found.ip.None? || found.mac.None? || !NamesANeighbour(found.ip.value) then None
        else Some(Neighbour(found.ip.value, found.mac.value, ifindex, StateOf(state), family.value))
  }

  function NeighbourFromPayload(payload: bytes): Option<Neighbour>
    requires |payload| >= NDMSG
  {
    EntryOf(payload[0], ReadI32Le(payload, 4), ReadU16Le(payload, 8), AttributesIn(Drop(payload, NDMSG)))
  }

  function EntriesIn(messages: seq<Message>): DumpChunk {
    if |messages| == 0 then DumpChunk([], false)
    else if messages[0].kind == NLMSG_DONE || messages[0].kind == NLMSG_ERROR then DumpChunk([], true)
    else
      var rest := EntriesIn(messages[1..]);
      if messages[0].kind != RTM_NEWNEIGH || |messages[0].payload| < NDMSG then rest
      else
        var entry := NeighbourFromPayload(messages[0].payload);
        if entry.None? then rest else rest.(entries := [entry.value] + rest.entries)
  }

  function ParseDump(data: bytes): DumpChunk {
    EntriesIn(MessagesIn(data))
  }

  /** What one message adds to the entries of those after it. */
  lemma EntriesStep(messages: seq<Message>, i: nat)
    requires i < |messages|
    ensures var (m, rest) := (messages[i], EntriesIn(messages[i + 1..]));
            EntriesIn(messages[i..])
            == if m.kind == NLMSG_DONE || m.kind == NLMSG_ERROR then DumpChunk([], true)
               else if m.kind != RTM_NEWNEIGH || |m.payload| < NDMSG || NeighbourFromPayload(m.payload).None? then rest
               else DumpChunk([NeighbourFromPayload(m.payload).value] + rest.entries, rest.done)
  {
    hide NeighbourFromPayload;
    assert messages[i..][1..] == messages[i + 1..];
  }

  method ParseNeighbourDump(data: bytes) returns (chunk: DumpChunk)
    ensures chunk == ParseDump(data)
  {
    var messages := IterMessages(data);
    var found: seq<Neighbour> := [];
    assert messages[0..] == messages && EntriesIn([]) == DumpChunk([], false);
    hide EntriesIn, NeighbourFromPayload;
    for i := 0 to |messages|
      invariant ParseDump(data) == EntriesIn(messages[i..]).(entries := found + EntriesIn(messages[i..]).entries)
    {
      var m := messages[i];
      EntriesStep(messages, i);
      if m.kind == NLMSG_DONE || m.kind == NLMSG_ERROR {
        return DumpChunk(found, true);
      }
      if m.kind != RTM_NEWNEIGH || |m.payload| < NDMSG {
        continue;
      }
      var neighbour := NeighbourFromPayload(m.payload);
      if neighbour.Some? {
        Regrouped(found, [neighbour.value], EntriesIn(messages[i + 1..]).entries);
        found := found + [neighbour.value];
      }
    }
    return DumpChunk(found, false);
  }

  // ---------------------------------------------------------------- rows as the kernel sends them

  /** One entry of a dump; its message header is taken as it comes, and so are the fields nothing reads. */
  datatype Row = Row(header: bytes, family: byte, padding: bytes, ifindex: int, state: nat, flags: byte, kind: byte,
                     attributes: seq<Attribute>)

  predicate CanEncode(row: Row) {
    && |row.padding| == 3 && IsI32(row.ifindex) && IsU16(row.state)
    && (forall i :: 0 <= i < |row.attributes| ==> CanBuildAttribute(row.attributes[i]))
  }

  function Ndmsg(row: Row): bytes {
    [row.family] + row.padding + (U32Le(row.ifindex) + (U16Le(row.state) + [row.flags, row.kind]))
  }

  function RowBody(row: Row): bytes
    requires CanEncode(row)
  {
    Ndmsg(row) + BuildAttributes(row.attributes)
  }

  /** The header, whatever its flags, sequence and port id, says how long the message is and that it is an entry. */
  predicate ValidRow(row: Row) {
    && CanEncode(row)
    && |row.header| == HEADER
    && ReadU32Le(row.header, 0) == HEADER + |RowBody(row)|
    && ReadU16Le(row.header, 4) == 28
  }

  function EncodeRow(row: Row): bytes
    requires ValidRow(row)
  {
    row.header + RowBody(row)
  }

  function EncodeRows(rows: seq<Row>): bytes
    requires forall i :: 0 <= i < |rows| ==> ValidRow(rows[i])
  {
    if |rows| == 0 then [] else EncodeRow(rows[0]) + EncodeRows(rows[1..])
  }

  function NamedBy(row: Row): Option<Neighbour> {
    EntryOf(row.family, row.ifindex, row.state, row.attributes)
  }

  /** The entries a list of rows names, in order. */
  function Kept(rows: seq<Row>): seq<Neighbour> {
    if |rows| == 0 then [] else Listed(NamedBy(rows[0])) + Kept(rows[1..])
  }

  function Preceded(entries: seq<Neighbour>, chunk: DumpChunk): DumpChunk {
    chunk.(entries := entries + chunk.entries)
  }

  lemma PrecededTwice(first: seq<Neighbour>, second: seq<Neighbour>, chunk: DumpChunk)
    ensures Preceded(first, Preceded(second, chunk)) == Preceded(first + second, chunk)
  {
    assert first + (second + chunk.entries) == first + second + chunk.entries;
  }

  lemma {:induction false} AttributesAreAligned(attributes: seq<Attribute>)
    requires forall i :: 0 <= i < |attributes| ==> CanBuildAttribute(attributes[i])
    ensures |BuildAttributes(attributes)| % 4 == 0
  {
    if |attributes| == 0 {
    } else {
      AttributesAreAligned(attributes[1..]);
    }
  }

  lemma RowReads(row: Row)
    requires CanEncode(row)
    ensures NeighbourFromPayload(RowBody(row)) == NamedBy(row)
  {
    AttributesRoundTrip(Ndmsg(row), row.attributes);
    HeaderReads(row, BuildAttributes(row.attributes));
  }

  lemma HeaderReads(row: Row, attributes: bytes)
    requires CanEncode(row)
    ensures var body := Ndmsg(row) + attributes;
            && |Ndmsg(row)| == NDMSG
            && body[0] == row.family && ReadI32Le(body, 4) == row.ifindex && ReadU16Le(body, 8) == row.state
  {
    var lead, index, state := [row.family] + row.padding, U32Le(row.ifindex), U16Le(row.state);
    var tail := [row.flags, row.kind] + attributes;
    var body := Ndmsg(row) + attributes;
    assert body == lead + (index + (state + tail)) && body == (lead + index) + (state + tail);
    FieldReads(lead, index, state + tail);
    FieldReads(lead + index, state, tail);
    U32LeReads(row.ifindex, []);
    U16LeReads(row.state, []);
    assert index + [] == index && state + [] == state;
  }

  lemma AfterOneEntry(payload: bytes, rest: seq<Message>)
    requires |payload| >= NDMSG
    ensures EntriesIn([Message(RTM_NEWNEIGH, payload)] + rest)
            == Preceded(Listed(NeighbourFromPayload(payload)), EntriesIn(rest))
  {
    assert ([Message(RTM_NEWNEIGH, payload)] + rest)[1..] == rest;
  }

  lemma WalksEntry(header: bytes, body: bytes, after: bytes)
    requires |header| == HEADER && ReadU32Le(header, 0) == HEADER + |body| && ReadU16Le(header, 4) == RTM_NEWNEIGH
    requires |body| >= NDMSG && |body| % 4 == 0
    ensures ParseDump(header + body + after) == Preceded(Listed(NeighbourFromPayload(body)), ParseDump(after))
  {
    WalksMessage(header, body, after);
    AlignedAfter(|body|);
    assert Drop(after, 0) == after;
    AfterOneEntry(body, MessagesIn(after));
  }

  lemma RowBodySize(row: Row)
    requires CanEncode(row)
    ensures |RowBody(row)| >= NDMSG && |RowBody(row)| % 4 == 0
  {
    AttributesAreAligned(row.attributes);
  }

  /** One row, then whatever follows it. */
  lemma WalksRow(row: Row, after: bytes)
    requires ValidRow(row)
    ensures ParseDump(EncodeRow(row) + after) == Preceded(Listed(NamedBy(row)), ParseDump(after))
  {
    RowReads(row);
    RowBodySize(row);
    WalksEntry(row.header, RowBody(row), after);
  }

  lemma {:induction false} WalksRows(rows: seq<Row>, after: bytes)
    requires forall i :: 0 <= i < |rows| ==> ValidRow(rows[i])
    ensures ParseDump(EncodeRows(rows) + after) == Preceded(Kept(rows), ParseDump(after))
    decreases |rows|
  {
    hide ParseDump, EncodeRow, NamedBy, Listed;
    if |rows| == 0 {
      assert [] + after == after;
    } else {
      var first, others := EncodeRow(rows[0]), EncodeRows(rows[1..]);
      Regrouped(first, others, after);
      WalksRow(rows[0], others + after);
      WalksRows(rows[1..], after);
      PrecededTwice(Listed(NamedBy(rows[0])), Kept(rows[1..]), ParseDump(after));
    }
  }

  /**
   * A dump of any rows, under any headers, reads as exactly the entries those rows name, in order, and as finished
   * exactly when a DONE message follows.
   */
  lemma DumpListsItsRows(rows: seq<Row>, end: Option<Framed>)
    requires forall i :: 0 <= i < |rows| ==> ValidRow(rows[i])
    requires end.Some? ==> ValidFramed(end.value) && MessageOf(end.value).kind == 3
    ensures ParseDump(EncodeRows(rows) + if end.Some? then Pack([end.value]) else [])
            == DumpChunk(Kept(rows), end.Some?)
  {
    WalksRows(rows, if end.Some? then Pack([end.value]) else []);
    if end.Some? {
      WalksChunk([end.value], []);
      assert Pack([end.value]) + [] == Pack([end.value]);
      assert Unframed([end.value])[0] == MessageOf(end.value);
    }
  }

  // ---------------------------------------------------------------- writing an entry

  const SET_FLAGS := 0x0505

  function StaticRow(ip: bytes, mac: bytes, ifindex: int, sequence: nat): Row
    requires |ip| == 4 && |mac| == 6
  {
    Row(MessageHeader(RTM_NEWNEIGH, SET_FLAGS, 32, sequence), AF_INET, [0, 0, 0], ifindex, NUD_PERMANENT, 0, 0,
        [Attribute(NDA_DST, ip), Attribute(NDA_LLADDR, mac)])
  }

  function BuildSetRequest(ip: bytes, mac: bytes, ifindex: int, sequence: nat): bytes
    requires |ip| == 4 && |mac| == 6 && IsI32(ifindex) && IsU32(sequence)
  {
    var body := [AF_INET, 0, 0, 0] + U32Le(ifindex) + U16Le(NUD_PERMANENT) + [0, 0]
                + BuildAttribute(Attribute(NDA_DST, ip)) + BuildAttribute(Attribute(NDA_LLADDR, mac));
    BuildMessage(RTM_NEWNEIGH, SET_FLAGS, body, sequence)
  }

  function BuildRemoveRequest(ip: bytes, ifindex: int, sequence: nat): bytes
    requires |ip| == 4 && IsI32(ifindex) && IsU32(sequence)
  {
    var body := [AF_INET, 0, 0, 0] + U32Le(ifindex) + [0, 0, 0, 0] + BuildAttribute(Attribute(NDA_DST, ip));
    BuildMessage(RTM_DELNEIGH, 5, body, sequence)
  }

  lemma StaticRowIsTheRequest(ip: bytes, mac: bytes, ifindex: int, sequence: nat)
    requires |ip| == 4 && |mac| == 6 && IsI32(ifindex) && IsU32(sequence)
    ensures ValidRow(StaticRow(ip, mac, ifindex, sequence))
    ensures BuildSetRequest(ip, mac, ifindex, sequence) == EncodeRow(StaticRow(ip, mac, ifindex, sequence))
  {
    var row := StaticRow(ip, mac, ifindex, sequence);
    var dst, lladdr := BuildAttribute(row.attributes[0]), BuildAttribute(row.attributes[1]);
    assert row.attributes[1..] == [row.attributes[1]];
    assert [row.attributes[1]][1..] == [];
    assert BuildAttributes([row.attributes[1]]) == lladdr + BuildAttributes([]);
    assert BuildAttributes(row.attributes) == dst + lladdr;
    assert RowBody(row) == [AF_INET, 0, 0, 0] + U32Le(ifindex) + U16Le(NUD_PERMANENT) + [0, 0] + dst + lladdr;
    assert |RowBody(row)| == 32;
    HeaderSays(RTM_NEWNEIGH, SET_FLAGS, 32, sequence);
  }

  lemma StaticRowNames(ip: bytes, mac: bytes, ifindex: int, sequence: nat)
    requires |ip| == 4 && |mac| == 6
    ensures Listed(NamedBy(StaticRow(ip, mac, ifindex, sequence)))
         == if NamesANeighbour(ip) && mac != Zeros(6) then [Neighbour(ip, mac, ifindex, PERMANENT, Packet.IPv4)] else []
  {
    var row := StaticRow(ip, mac, ifindex, sequence);
    assert row.attributes[..1] == [row.attributes[0]] && [row.attributes[0]][..0] == [];
    assert AddressesIn([row.attributes[0]], AF_INET) == EntryAddresses(Some(ip), None);
  }

  /**
   * The write request reads back as the one PERMANENT entry it asks for, if and only if that address can name a host
   * and the hardware address is not zero.
   */
  lemma SetRequestNamesItsEntry(ip: bytes, mac: bytes, ifindex: int, sequence: nat)
    requires |ip| == 4 && |mac| == 6 && IsI32(ifindex) && IsU32(sequence)
    ensures ParseDump(BuildSetRequest(ip, mac, ifindex, sequence))
         == DumpChunk(if NamesANeighbour(ip) && mac != Zeros(6)
           then [Neighbour(ip, mac, ifindex, PERMANENT, Packet.IPv4)]
                      else [], false)
  {
    var request := BuildSetRequest(ip, mac, ifindex, sequence);
    assert ParseDump([]) == DumpChunk([], false);
    hide ParseDump, BuildSetRequest, EncodeRow, ValidRow;
    StaticRowIsTheRequest(ip, mac, ifindex, sequence);
    StaticRowNames(ip, mac, ifindex, sequence);
    WalksRow(StaticRow(ip, mac, ifindex, sequence), []);
    assert request + [] == request;
  }

  /** A delete request never reads as an entry. */
  lemma RemoveRequestNamesNothing(ip: bytes, ifindex: int, sequence: nat)
    requires |ip| == 4 && IsI32(ifindex) && IsU32(sequence)
    ensures ParseDump(BuildRemoveRequest(ip, ifindex, sequence)) == DumpChunk([], false)
  {
    var body := [AF_INET, 0, 0, 0] + U32Le(ifindex) + [0, 0, 0, 0] + BuildAttribute(Attribute(NDA_DST, ip));
    var built := BuildMessage(RTM_DELNEIGH, 5, body, sequence);
    WalksBuiltMessage(RTM_DELNEIGH, 5, body, sequence, []);
    assert built + [] == built;
    assert Drop([], Padding(|body|)) == [] && MessagesIn([]) == [];
    assert [Message(RTM_DELNEIGH, body)] + [] == [Message(RTM_DELNEIGH, body)];
    assert [Message(RTM_DELNEIGH, body)][1..] == [];
    assert EntriesIn([]) == DumpChunk([], false);
  }

  // ---------------------------------------------------------------- the documented rule for repeated attributes

  /** The rule as documented: a later attribute overwrites an earlier one of its kind only when it decodes. */
  function WithDecoded(found: EntryAddresses, a: Attribute, raw: byte): EntryAddresses {
    if a.kind == NDA_DST && ReadAddress(raw, a.value).Some? then found.(ip := ReadAddress(raw, a.value))
    else if a.kind == NDA_LLADDR && FormatMac(a.value).Some? then found.(mac := FormatMac(a.value))
    else found
  }

  function Documented(attributes: seq<Attribute>, raw: byte): EntryAddresses {
    if |attributes| == 0 then EntryAddresses(None, None)
    else WithDecoded(Documented(attributes[..|attributes| - 1], raw), attributes[|attributes| - 1], raw)
  }

  predicate DecodesAt(attributes: seq<Attribute>, i: int) {
    0 <= i < |attributes| && attributes[i].kind == NDA_LLADDR && FormatMac(attributes[i].value).Some?
  }

  /** The last link address, which does not decode. */
  predicate EndsUndecoded(attributes: seq<Attribute>, j: int) {
    && 0 <= j < |attributes| && attributes[j].kind == NDA_LLADDR && FormatMac(attributes[j].value).None?
    && forall k :: j < k < |attributes| ==> attributes[k].kind != NDA_LLADDR
  }

  /** Some link address decodes, and the last one does not. */
  ghost predicate Erased(attributes: seq<Attribute>) {
    exists i, j :: i < j && DecodesAt(attributes, i) && EndsUndecoded(attributes, j)
  }

  lemma {:induction false} DocumentedMac(attributes: seq<Attribute>, raw: byte)
    ensures Documented(attributes, raw).mac.Some? <==> exists i :: DecodesAt(attributes, i)
  {
    if |attributes| == 0 {
    } else {
      var init, n := attributes[..|attributes| - 1], |attributes| - 1;
      DocumentedMac(init, raw);
      assert forall i :: i < n ==> (DecodesAt(attributes, i) <==> DecodesAt(init, i));
      assert FormatMac(attributes[n].value).Some? && attributes[n].kind == NDA_LLADDR ==> DecodesAt(attributes, n);
      if i :| DecodesAt(attributes, i) {
        assert i < n ==> DecodesAt(init, i);
      }
    }
  }

  lemma ErasedStep(attributes: seq<Attribute>, raw: byte)
    requires |attributes| > 0
    ensures var (init, a) := (attributes[..|attributes| - 1], attributes[|attributes| - 1]);
            Erased(attributes) <==>
              if a.kind != NDA_LLADDR then Erased(init) else FormatMac(a.value).None? && Documented(init, raw).mac.Some?
  {
    var n := |attributes| - 1;
    var init, a := attributes[..n], attributes[n];
    DocumentedMac(init, raw);
    assert forall i :: i < n ==> (DecodesAt(attributes, i) <==> DecodesAt(init, i));
    if a.kind != NDA_LLADDR {
      assert forall j :: j < n ==> (EndsUndecoded(attributes, j) <==> EndsUndecoded(init, j));
    } else {
      assert forall j :: j < n ==> !EndsUndecoded(attributes, j);
      assert EndsUndecoded(attributes, n) <==> FormatMac(a.value).None?;
    }
  }

  /**
   * The code keeps the documented rule if and only if no link address that decodes is followed by a last one that does
   * not; destinations always keep it, and where the rule fails the entry is left without a link address.
   */
  lemma {:induction false} DocumentedUnlessErased(attributes: seq<Attribute>, raw: byte)
    ensures AddressesIn(attributes, raw) == Documented(attributes, raw) <==> !Erased(attributes)
    ensures AddressesIn(attributes, raw).ip == Documented(attributes, raw).ip
    ensures Erased(attributes) ==> AddressesIn(attributes, raw).mac == None && Documented(attributes, raw).mac.Some?
    decreases |attributes|
  {
    if |attributes| == 0 {
    } else {
      DocumentedUnlessErased(attributes[..|attributes| - 1], raw);
      ErasedStep(attributes, raw);
      hide Erased, FormatMac, ReadAddress;
    }
  }

  /** An entry so lost: a host's address and link address, then a link address of zeros. */
  lemma AnEntryIsLost(ifindex: int)
    ensures var mac: bytes := [2, 0, 0, 0, 0, 7];
            var kept := [Attribute(NDA_DST, [192, 0, 2, 7]), Attribute(NDA_LLADDR, mac)];
            var attributes := kept + [Attribute(NDA_LLADDR, Zeros(6))];
            && EntryOf(AF_INET, ifindex, NUD_PERMANENT, kept).Some?
            && EntryOf(AF_INET, ifindex, NUD_PERMANENT, attributes).None?
            && Documented(attributes, AF_INET) == AddressesIn(kept, AF_INET)
  {
    var dst, mac := Attribute(NDA_DST, [192, 0, 2, 7]), Attribute(NDA_LLADDR, [2, 0, 0, 0, 0, 7]);
    var zeros := Attribute(NDA_LLADDR, Zeros(6));
    var kept := [dst, mac];
    assert kept[..1] == [dst] && [dst][..0] == [] && (kept + [zeros])[..2] == kept;
    assert mac.value[0] == 2 && dst.value[0] == 192;
    assert FormatMac(mac.value) == Some(mac.value) && FormatMac(zeros.value) == None;
    assert ReadAddress(AF_INET, dst.value) == Some(dst.value) && NamesANeighbour(dst.value);
    hide FormatMac, ReadAddress;
    assert AddressesIn([], AF_INET) == Documented([], AF_INET) == EntryAddresses(None, None);
    assert AddressesIn([dst], AF_INET) == WithAttribute(AddressesIn([], AF_INET), dst, AF_INET);
    assert Documented([dst], AF_INET) == WithDecoded(Documented([], AF_INET), dst, AF_INET);
    assert AddressesIn(kept, AF_INET) == WithAttribute(AddressesIn([dst], AF_INET), mac, AF_INET);
    assert Documented(kept, AF_INET) == WithDecoded(Documented([dst], AF_INET), mac, AF_INET);
    assert AddressesIn(kept + [zeros], AF_INET) == WithAttribute(AddressesIn(kept, AF_INET), zeros, AF_INET);
    assert Documented(kept + [zeros], AF_INET) == WithDecoded(Documented(kept, AF_INET), zeros, AF_INET);
  }

  // ---------------------------------------------------------------- what one entry says

  /** A destination decodes if and only if it has exactly its family's size: 4 bytes under 2, 16 under 10. */
  lemma DestinationExactly(raw: byte, value: bytes, ip: bytes)
    ensures ReadAddress(raw, value) == Some(ip)
            <==> ip == value && ((raw == 2 && |ip| == 4) || (raw == 10 && |ip| == 16))
  {
  }

  /** The kernel's states by their bits: the lowest of 01, 02, 04, 20 and 80 that is set names the state. */
  lemma StatesByBit(state: nat)
    ensures StateOf(state) == INCOMPLETE <==> state % 2 == 1
    ensures StateOf(state) == REACHABLE <==> state % 4 == 2
    ensures StateOf(state) == STALE <==> state % 8 == 4
    ensures StateOf(state) == FAILED <==> state % 8 == 0 && state / 0x20 % 2 == 1
    ensures StateOf(state) == PERMANENT <==> state % 8 == 0 && state / 0x20 % 2 == 0 && state / 0x80 % 2 == 1
    ensures StateOf(state) == OTHER <==> state % 8 == 0 && state / 0x20 % 2 == 0 && state / 0x80 % 2 == 0
  {
  }

  /** Neither a destination nor a link address. */
  predicate SaysNothing(attributes: seq<Attribute>) {
    forall i :: 0 <= i < |attributes| ==> attributes[i].kind != 1 && attributes[i].kind != 2
  }

  lemma {:induction false} OthersSayNothing(before: seq<Attribute>, others: seq<Attribute>, raw: byte)
    requires SaysNothing(others)
    ensures AddressesIn(before + others, raw) == AddressesIn(before, raw)
    decreases |others|
  {
    if |others| == 0 {
      assert before + others == before;
    } else {
      var all := before + others;
      assert all[..|all| - 1] == before + others[..|others| - 1];
      OthersSayNothing(before, others[..|others| - 1], raw);
    }
  }

  lemma OneMoreAttribute(before: seq<Attribute>, a: Attribute, raw: byte)
    ensures AddressesIn(before + [a], raw) == WithAttribute(AddressesIn(before, raw), a, raw)
  {
    assert (before + [a])[..|before|] == before;
  }

  /**
   * An entry with one destination and one link address, whatever else surrounds them, names a neighbour if and only
   * if it is neither incomplete nor failed, its destination is a whole IPv4 (family 2) or IPv6 (family 10) address
   * that can name a host, and its link address is six bytes, not all zero.
   */
  lemma EntryExactly(raw: byte, ifindex: int, state: nat, a: seq<Attribute>, ip: bytes, b: seq<Attribute>, mac: bytes,
                     c: seq<Attribute>)
    requires SaysNothing(a) && SaysNothing(b) && SaysNothing(c)
    ensures EntryOf(raw, ifindex, state, a + [Attribute(1, ip)] + b + [Attribute(2, mac)] + c)
         == if && state % 2 == 0 && state / 0x20 % 2 == 0
               && ((raw == 2 && |ip| == 4) || (raw == 10 && |ip| == 16))
               && NamesANeighbour(ip) && |mac| == 6 && mac != Zeros(6)
            then Some(Neighbour(ip, mac, ifindex, StateOf(state), if raw == 2 then Packet.IPv4 else Packet.IPv6))
              else None
  {
    var dst, lladdr := Attribute(1, ip), Attribute(2, mac);
    OthersSayNothing([], a, raw);
    assert [] + a == a;
    OneMoreAttribute(a, dst, raw);
    OthersSayNothing(a + [dst], b, raw);
    OneMoreAttribute(a + [dst] + b, lladdr, raw);
    OthersSayNothing(a + [dst] + b + [lladdr], c, raw);
    assert AddressesIn([], raw) == EntryAddresses(None, None);
    hide AddressesIn, NamesANeighbour, StateOf;
  }

  // ---------------------------------------------------------------- on the wire

  /** The write request byte by byte: flags REQUEST, REPLACE, ACK and CREATE, state PERMANENT. */
  lemma SetRequestOnTheWire(ip: bytes, mac: bytes, ifindex: int, sequence: nat)
    requires |ip| == 4 && |mac| == 6 && IsI32(ifindex) && IsU32(sequence)
    ensures BuildSetRequest(ip, mac, ifindex, sequence)
         == [48, 0, 0, 0, 28, 0, 5, 5] + U32Le(sequence) + [0, 0, 0, 0]
            + ([2, 0, 0, 0] + U32Le(ifindex) + [0x80, 0, 0, 0] + ([8, 0, 1, 0] + ip + ([10, 0, 2, 0] + mac + [0, 0])))
  {
    DestinationLayout(ip);
    LinkLayout(mac);
    hide BuildAttribute;
    var body := [2, 0, 0, 0] + U32Le(ifindex) + [0x80, 0, 0, 0] + ([8, 0, 1, 0] + ip + ([10, 0, 2, 0] + mac + [0, 0]));
    assert [AF_INET, 0, 0, 0] + U32Le(ifindex) + U16Le(NUD_PERMANENT) + [0, 0]
           + BuildAttribute(Attribute(NDA_DST, ip)) + BuildAttribute(Attribute(NDA_LLADDR, mac)) == body;
    assert MessageHeader(28, SET_FLAGS, 32, sequence) == [48, 0, 0, 0, 28, 0, 5, 5] + U32Le(sequence) + [0, 0, 0, 0];
    hide MessageHeader, U32Le;
    assert |body| == 32;
  }

  lemma DestinationLayout(ip: bytes)
    requires |ip| == 4
    ensures BuildAttribute(Attribute(NDA_DST, ip)) == [8, 0, 1, 0] + ip
  {
  }

  lemma LinkLayout(mac: bytes)
    requires |mac| == 6
    ensures BuildAttribute(Attribute(NDA_LLADDR, mac)) == [10, 0, 2, 0] + mac + [0, 0]
  {
  }

  lemma RemoveRequestOnTheWire(ip: bytes, ifindex: int, sequence: nat)
    requires |ip| == 4 && IsI32(ifindex) && IsU32(sequence)
    ensures BuildRemoveRequest(ip, ifindex, sequence)
         == [36, 0, 0, 0, 29, 0, 5, 0] + U32Le(sequence) + [0, 0, 0, 0]
            + ([2, 0, 0, 0] + U32Le(ifindex) + [0, 0, 0, 0] + ([8, 0, 1, 0] + ip))
  {
    DestinationLayout(ip);
    hide BuildAttribute;
    var body := [2, 0, 0, 0] + U32Le(ifindex) + [0, 0, 0, 0] + ([8, 0, 1, 0] + ip);
    assert [AF_INET, 0, 0, 0] + U32Le(ifindex) + [0, 0, 0, 0] + BuildAttribute(Attribute(NDA_DST, ip)) == body;
    assert MessageHeader(29, 5, 20, sequence) == [36, 0, 0, 0, 29, 0, 5, 0] + U32Le(sequence) + [0, 0, 0, 0];
    hide MessageHeader, U32Le;
    assert |body| == 20;
  }
}
