/**
 * The sockaddrs a BSD routing message carries: padded, self-describing, and named only by their place in a fixed
 * order.
 */
module BsdRoute {
  import opened Bytes
  import Neighbours
  import Packet

  const SLOTS := 8
  const AF_INET: byte := 2
  const AF_INET6: byte := 30
  const AF_LINK: byte := 18
  const IFT_ETHER: byte := 6
  const SOCKADDR_DL_FIXED := 8

  /** 1 + ((length - 1) | 3), and one slot for a zero length. */
  function RoundUp(length: int): nat {
    if length <= 0 then 4 else 1 + ((length - 1) / 4 * 4 + 3)
  }

  lemma RoundUpAligns(length: nat)
    ensures RoundUp(length) % 4 == 0 && RoundUp(length) >= 4
    ensures length > 0 ==> length <= RoundUp(length) < length + 4
    ensures length > 0 && length % 4 == 0 ==> RoundUp(length) == length
  {
  }

  /** Whether bit `slot` of the mask is set, so that the sockaddr of this place in the order is present. */
  predicate Names(addrs: int, slot: nat)
    decreases slot
  {
    if slot == 0 then addrs % 2 == 1 else Names(addrs / 2, slot - 1)
  }

  lemma {:induction false} NoneNamed(slot: nat)
    ensures !Names(0, slot)
  {
    if slot == 0 {
    } else {
      NoneNamed(slot - 1);
    }
  }

  /** The sockaddrs by place, from `slot` on, of the bytes still unread. */
  function SplitFrom(unread: bytes, addrs: int, slot: nat): map<nat, bytes>
    requires slot <= SLOTS
    decreases SLOTS - slot
  {
    if slot == SLOTS then map[]
    else if !Names(addrs, slot) then SplitFrom(unread, addrs, slot + 1)
    else if |unread| < 2 then map[]
    else
      var length := unread[0];
      var others := SplitFrom(Drop(unread, RoundUp(length)), addrs, slot + 1);
      if length != 0 && length <= |unread| then others[slot := unread[..length]] else others
  }

  lemma {:induction false} SplitKeys(unread: bytes, addrs: int, slot: nat)
    requires slot <= SLOTS
    ensures forall k :: k in SplitFrom(unread, addrs, slot) ==> slot <= k < SLOTS
    decreases SLOTS - slot
  {
    if slot == SLOTS {
    } else {
      if !Names(addrs, slot) {
        SplitKeys(unread, addrs, slot + 1);
      } else if |unread| >= 2 {
        SplitKeys(Drop(unread, RoundUp(unread[0])), addrs, slot + 1);
      }
    }
  }

  datatype SockaddrSet = SockaddrSet(destination: Option<bytes>, gateway: Option<bytes>, netmask: Option<bytes>,
                                     interface: Option<bytes>, interfaceAddress: Option<bytes>,
                                     broadcast: Option<bytes>)

  function Get(found: map<nat, bytes>, slot: nat): Option<bytes> {
    if slot in found then Some(found[slot]) else None
  }

  function Named(found: map<nat, bytes>): SockaddrSet {
    SockaddrSet(Get(found, 0), Get(found, 1), Get(found, 2), Get(found, 4), Get(found, 5), Get(found, 7))
  }

  /** A named place: its sockaddr if it says anything, and whatever the later places hold. */
  lemma NamedPlace(unread: bytes, addrs: int, slot: nat)
    requires slot < SLOTS && Names(addrs, slot) && |unread| >= 2
    ensures var others := SplitFrom(Drop(unread, RoundUp(unread[0])), addrs, slot + 1);
            && slot !in others
            && SplitFrom(unread, addrs, slot)
               == if unread[0] != 0 && unread[0] <= |unread| then others[slot := unread[..unread[0]]] else others
  {
    SplitKeys(Drop(unread, RoundUp(unread[0])), addrs, slot + 1);
  }

  lemma SplitStep(found: map<nat, bytes>, payload: bytes, position: nat, addrs: int, slot: nat)
    requires slot < SLOTS && Names(addrs, slot) && position + 2 <= |payload|
    ensures var length := payload[position];
            var found' := if length != 0 && position + length <= |payload|
              then found[slot := payload[position..position + length]] else found;
            found + SplitFrom(Drop(payload, position), addrs, slot)
            == found' + SplitFrom(Drop(payload, position + RoundUp(length)), addrs, slot + 1)
  {
    var length, unread := payload[position], payload[position..];
    assert unread == Drop(payload, position) && unread[0] == length;
    NamedPlace(unread, addrs, slot);
    DropDrop(payload, position, RoundUp(length));
    hide SplitFrom, Names, RoundUp, Drop;
    if length != 0 && position + length <= |payload| {
      assert unread[..length] == payload[position..position + length];
      InsertEarlier(found, SplitFrom(Drop(unread, RoundUp(length)), addrs, slot + 1), slot, unread[..length]);
    }
  }

  lemma DropDrop(data: bytes, m: nat, n: nat)
    ensures Drop(Drop(data, m), n) == Drop(data, m + n)
  {
  }

  lemma InsertEarlier(found: map<nat, bytes>, others: map<nat, bytes>, slot: nat, s: bytes)
    requires slot !in others
    ensures found + others[slot := s] == found[slot := s] + others
  {
  }

  lemma SplitEnds(found: map<nat, bytes>, unread: bytes, addrs: int, slot: nat)
    requires slot <= SLOTS && (slot == SLOTS || (Names(addrs, slot) && |unread| < 2))
    ensures found + SplitFrom(unread, addrs, slot) == found
  {
  }

  /** One place in the order: its sockaddr, if it says anything, and where the next one starts. */
  method TakeSlot(found: map<nat, bytes>, payload: bytes, position: nat, addrs: int, slot: nat)
    returns (found': map<nat, bytes>, next: nat)
    requires slot < SLOTS && (Names(addrs, slot) ==> position + 2 <= |payload|)
    requires forall k :: k in found ==> k < slot
    ensures forall k :: k in found' ==> k < slot + 1
    ensures found' + SplitFrom(Drop(payload, next), addrs, slot + 1)
            == found + SplitFrom(Drop(payload, position), addrs, slot)
  {
    found', next := found, position;
    if Names(addrs, slot) {
      SplitStep(found, payload, position, addrs, slot);
      var length := payload[position];
      if length != 0 && position + length <= |payload| {
        found' := found[slot := payload[position..position + length]];
      }
      next := position + RoundUp(length);
    }
  }

  method SplitSockaddrs(payload: bytes, addrs: int) returns (sockaddrs: SockaddrSet)
    ensures sockaddrs == Named(SplitFrom(payload, addrs, 0))
  {
    var found: map<nat, bytes> := map[];
    var position: nat := 0;
    assert Drop(payload, 0) == payload;
    var slot := 0;
    while slot < SLOTS && !(Names(addrs, slot) && position + 2 > |payload|)
      invariant slot <= SLOTS
      invariant forall k :: k in found ==> k < slot
      invariant found + SplitFrom(Drop(payload, position), addrs, slot) == SplitFrom(payload, addrs, 0)
    {
      found, position := TakeSlot(found, payload, position, addrs, slot);
      slot := slot + 1;
    }
    SplitEnds(found, Drop(payload, position), addrs, slot);
    return Named(found);
  }

  datatype IpAddress = IpAddress(family: Packet.Family, packed: bytes)

  function AddressOf(chunk: bytes): Option<IpAddress> {
    if |chunk| < 2 then None
    else if chunk[1] == AF_INET then
      if |chunk| < 8 then None else Some(IpAddress(Packet.IPv4, chunk[4..8]))
    else if chunk[1] == AF_INET6 then
      if |chunk| < 24 then None else Some(IpAddress(Packet.IPv6, chunk[8..24]))
    else None
  }

  function LinkAddressOf(chunk: bytes): Option<bytes> {
    if |chunk| < SOCKADDR_DL_FIXED then None
    else if chunk[1] != AF_LINK || chunk[6] != 6 then None
    else
      var start := SOCKADDR_DL_FIXED + chunk[5];
      if start + 6 > |chunk| then None else Neighbours.FormatMac(chunk[start..start + 6])
  }

  function PackSockaddrIn(address: bytes): bytes {
    [16, AF_INET, 0, 0] + address + Zeros(8)
  }

  function PackSockaddrDl(index: nat, mac: bytes): bytes
    requires |mac| <= 12
  {
    [20, AF_LINK] + U16Le(index) + [IFT_ETHER, 0, |mac|, 0] + mac + Zeros(12 - |mac|)
  }

  /**
   * A link sockaddr of any length, kind and selector, with a name of any length before its address, gives that address;
   * one whose address has another length gives none.
   */
  lemma LinkAddressAfterName(length: byte, index: bytes, kind: byte, selector: byte, name: bytes, address: bytes,
                             rest: bytes)
    requires |index| == 2 && |name| < 256 && |address| < 256
    ensures LinkAddressOf([length, 18] + index + [kind, |name|, |address|, selector] + name + address + rest)
         == if |address| == 6 then Neighbours.FormatMac(address) else None
  {
    var head := [length, AF_LINK] + index + [kind, |name|, |address|, selector];
    var chunk := head + name + address + rest;
    assert chunk[1] == head[1] && chunk[5] == head[5] && chunk[6] == head[6];
    assert chunk[8 + |name|..8 + |name| + |address|] == address;
  }

  // ---------------------------------------------------------------- laying out and splitting

  /** A sockaddr leads with its own length; the empty one stands for a zero-length slot. */
  predicate IsSockaddr(s: bytes) {
    s == [] || (|s| < 256 && s[0] == |s|)
  }

  function Padded(s: bytes): bytes {
    s + Zeros(RoundUp(|s|) - |s|)
  }

  predicate ValidSlots(slots: seq<Option<bytes>>) {
    |slots| == SLOTS && forall i :: 0 <= i < SLOTS && slots[i].Some? ==> IsSockaddr(slots[i].value)
  }

  function Layout(slots: seq<Option<bytes>>, slot: nat): bytes
    requires slot <= |slots|
    decreases |slots| - slot
  {
    if slot == |slots| then []
    else (if slots[slot].Some? then Padded(slots[slot].value) else []) + Layout(slots, slot + 1)
  }

  predicate MaskOf(addrs: int, slots: seq<Option<bytes>>)
    requires |slots| == SLOTS
  {
    forall i :: 0 <= i < SLOTS ==> (Names(addrs, i) <==> slots[i].Some?)
  }

  function Present(slots: seq<Option<bytes>>, slot: nat): map<nat, bytes> {
    map i: nat | slot <= i < |slots| && slots[i].Some? && slots[i].value != [] :: slots[i].value
  }

  lemma ReadsPadded(s: bytes, after: bytes)
    requires IsSockaddr(s)
    ensures var unread := Padded(s) + after;
            && |unread| >= 2
            && unread[0] == |s|
            && Drop(unread, RoundUp(|s|)) == after
            && |s| <= |unread| && unread[..|s|] == s
  {
    RoundUpAligns(|s|);
  }

  lemma SplitsOne(s: bytes, after: bytes, addrs: int, slot: nat)
    requires IsSockaddr(s) && slot < SLOTS && Names(addrs, slot)
    ensures var others := SplitFrom(after, addrs, slot + 1);
            SplitFrom(Padded(s) + after, addrs, slot) == if s == [] then others else others[slot := s]
  {
    ReadsPadded(s, after);
  }

  lemma SkipsOne(unread: bytes, addrs: int, slot: nat)
    requires slot < SLOTS && !Names(addrs, slot)
    ensures SplitFrom(unread, addrs, slot) == SplitFrom(unread, addrs, slot + 1)
  {
  }

  lemma PresentStep(slots: seq<Option<bytes>>, slot: nat)
    requires slot < |slots|
    ensures var others := Present(slots, slot + 1);
            Present(slots, slot) == if slots[slot].None? || slots[slot].value == [] then others
              else others[slot := slots[slot].value]
  {
  }

  /**
   * Any subset of the slots, zero-length sockaddrs among them, laid out in order and padded, is split back to exactly
   * those that say something.
   */
  lemma {:induction false} SplitsLayout(slots: seq<Option<bytes>>, addrs: int, slot: nat, after: bytes)
    requires ValidSlots(slots) && MaskOf(addrs, slots) && slot <= SLOTS
    ensures SplitFrom(Layout(slots, slot) + after, addrs, slot) == Present(slots, slot)
    decreases SLOTS - slot
  {
    if slot == SLOTS {
      assert Present(slots, slot) == map[];
    } else {
      var rest := Layout(slots, slot + 1);
      SplitsLayout(slots, addrs, slot + 1, after);
      PresentStep(slots, slot);
      assert Layout(slots, slot) == (if slots[slot].Some? then Padded(slots[slot].value) else []) + rest;
      if slots[slot].Some? {
        SplitsOne(slots[slot].value, rest + after, addrs, slot);
        hide *;
        Regrouped(Padded(slots[slot].value), rest, after);
      } else {
        SkipsOne(rest + after, addrs, slot);
        hide *;
        assert [] + rest == rest;
      }
    }
  }

  lemma {:induction false} LayoutIsAligned(slots: seq<Option<bytes>>, slot: nat)
    requires slot <= |slots|
    ensures |Layout(slots, slot)| % 4 == 0
    decreases |slots| - slot
  {
    if slot == |slots| {
    } else {
      LayoutIsAligned(slots, slot + 1);
      if slots[slot].Some? {
        RoundUpAligns(|slots[slot].value|);
      }
    }
  }

  // ---------------------------------------------------------------- by place and by field

  /** The mask whose bits 1, 2, 4, ... 128 say which of the eight places are present. */
  function MaskFor(slots: seq<Option<bytes>>): nat
    requires |slots| == 8
  {
    (if slots[0].Some? then 1 else 0) + (if slots[1].Some? then 2 else 0) + (if slots[2].Some? then 4 else 0)
    + (if slots[3].Some? then 8 else 0) + (if slots[4].Some? then 16 else 0) + (if slots[5].Some? then 32 else 0)
    + (if slots[6].Some? then 64 else 0) + (if slots[7].Some? then 128 else 0)
  }

  function MaskFrom(slots: seq<Option<bytes>>, i: nat): nat
    requires i <= |slots|
    decreases |slots| - i
  {
    if i == |slots| then 0 else (if slots[i].Some? then 1 else 0) + 2 * MaskFrom(slots, i + 1)
  }

  lemma {:induction false} NamesAt(slots: seq<Option<bytes>>, i: nat, k: nat)
    requires i + k < |slots|
    ensures Names(MaskFrom(slots, i), k) <==> slots[i + k].Some?
    decreases k
  {
    var rest := MaskFrom(slots, i + 1);
    assert MaskFrom(slots, i) / 2 == rest && (MaskFrom(slots, i) % 2 == 1 <==> slots[i].Some?);
    if k == 0 {
    } else {
      NamesAt(slots, i + 1, k - 1);
    }
  }

  lemma MaskForIsFrom(slots: seq<Option<bytes>>)
    requires |slots| == 8
    ensures MaskFor(slots) == MaskFrom(slots, 0)
  {
    var m7 := MaskFrom(slots, 7);
    assert m7 == (if slots[7].Some? then 1 else 0) + 2 * MaskFrom(slots, 8);
    var m4 := MaskFrom(slots, 4);
    assert m4 == (if slots[4].Some? then 1 else 0) + 2 * MaskFrom(slots, 5);
    assert MaskFrom(slots, 5) == (if slots[5].Some? then 1 else 0) + 2 * MaskFrom(slots, 6);
    assert MaskFrom(slots, 6) == (if slots[6].Some? then 1 else 0) + 2 * m7;
    assert MaskFrom(slots, 2) == (if slots[2].Some? then 1 else 0) + 2 * MaskFrom(slots, 3);
    assert MaskFrom(slots, 3) == (if slots[3].Some? then 1 else 0) + 2 * m4;
    assert MaskFrom(slots, 0) == (if slots[0].Some? then 1 else 0) + 2 * MaskFrom(slots, 1);
    assert MaskFrom(slots, 1) == (if slots[1].Some? then 1 else 0) + 2 * MaskFrom(slots, 2);
    hide MaskFrom;
  }

  lemma MaskForNames(slots: seq<Option<bytes>>)
    requires |slots| == 8
    ensures MaskOf(MaskFor(slots), slots)
  {
    MaskForIsFrom(slots);
    hide MaskFor, MaskFrom, Names;
    forall i | 0 <= i < SLOTS ensures Names(MaskFor(slots), i) <==> slots[i].Some? {
      NamesAt(slots, 0, i);
    }
  }

  function Said(slot: Option<bytes>): Option<bytes> {
    if slot == Some([]) then None else slot
  }

  /** Every named sockaddr comes back under its own name: places 0, 1, 2, 4, 5 and 7 of the order of <net/route.h>. */
  lemma SockaddrsAreNamed(slots: seq<Option<bytes>>, after: bytes)
    requires ValidSlots(slots)
    ensures var found := Named(SplitFrom(Layout(slots, 0) + after, MaskFor(slots), 0));
            && found.destination == Said(slots[0]) && found.gateway == Said(slots[1]) && found.netmask == Said(slots[2])
            && found.interface == Said(slots[4]) && found.interfaceAddress == Said(slots[5])
            && found.broadcast == Said(slots[7])
  {
    MaskForNames(slots);
    SplitsLayout(slots, MaskFor(slots), 0, after);
    hide Layout, SplitFrom, MaskFor;
  }

  /** Where an address stands in a sockaddr_in (family 2) and in macOS's sockaddr_in6 (family 30). */
  lemma AddressesInSockaddrs(length: byte, port: bytes, flow: bytes, ipv4: bytes, ipv6: bytes, rest: bytes)
    requires |port| == 2 && |flow| == 4 && |ipv4| == 4 && |ipv6| == 16
    ensures AddressOf([length, 2] + port + ipv4 + rest) == Some(IpAddress(Packet.IPv4, ipv4))
    ensures AddressOf([length, 30] + port + flow + ipv6 + rest) == Some(IpAddress(Packet.IPv6, ipv6))
  {
    var a, b := [length, 2] + port + ipv4 + rest, [length, 30] + port + flow + ipv6 + rest;
    assert a[4..8] == ipv4 && a[1] == 2;
    assert b[8..24] == ipv6 && b[1] == 30;
  }

  lemma AddressNeedsItsFamily(chunk: bytes)
    ensures AddressOf(chunk).Some?
            <==> |chunk| >= 2 && ((chunk[1] == 2 && |chunk| >= 8) || (chunk[1] == 30 && |chunk| >= 24))
  {
  }

  /** The sockaddrs a write carries, byte by byte. */
  lemma PackedSockaddrs(index: nat, mac: bytes, ip: bytes)
    requires |mac| == 6 && |ip| == 4
    ensures PackSockaddrIn(ip) == [16, 2, 0, 0] + ip + [0, 0, 0, 0, 0, 0, 0, 0]
    ensures PackSockaddrDl(index, mac) == [20, 18] + U16Le(index) + [6, 0, 6, 0] + mac + [0, 0, 0, 0, 0, 0]
  {
  }

  /**
   * A gateway names a hardware address if and only if it is a link sockaddr with six whole address bytes, not all
   * zero.
   */
  lemma LinkAddressExactly(chunk: bytes, mac: bytes)
    ensures LinkAddressOf(chunk) == Some(mac)
       <==> && |chunk| >= 8 && chunk[1] == 18 && chunk[6] == 6 && 14 + chunk[5] <= |chunk|
            && mac == chunk[8 + chunk[5]..14 + chunk[5]] && mac != Zeros(6)
  {
  }
}
