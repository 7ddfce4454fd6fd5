/** What a neighbour-table entry says, whichever kernel it came from. */
module Neighbours {
  import opened Bytes
  import Packet

  datatype NeighbourState = INCOMPLETE | REACHABLE | STALE | FAILED | PERMANENT | OTHER

  /** Addresses are packed; the interface is its index. */
  datatype Neighbour = Neighbour(ip: bytes, mac: bytes, ifindex: int, state: NeighbourState, family: Packet.Family)

  /** A hardware address of six bytes, not all zero. */
  function FormatMac(raw: bytes): (r: Option<bytes>)
    ensures r.Some? ==> r.value == raw && |raw| == 6
  {
    if |raw| != 6 || raw == Zeros(6) then None else Some(raw)
  }

  function Listed(entry: Option<Neighbour>): seq<Neighbour> {
    if entry.Some? then [entry.value] else []
  }

  /** Neither multicast nor unspecified. */
  predicate NamesANeighbour(ip: bytes) {
    && |ip| > 0
    && ip != Zeros(|ip|)
    && (|ip| == 4 ==> !(224 <= ip[0] <= 239))
    && (|ip| == 16 ==> ip[0] != 0xFF)
  }

  // ---------------------------------------------------------------- as ranges of addresses

  lemma {:induction false} BigEndianSplit(s: bytes)
    requires |s| > 0
    ensures BigEndian(s) == s[0] * Pow256(|s| - 1) + BigEndian(s[1..])
  {
    if |s| == 1 {
      assert s[..0] == [] && s[1..] == [];
      assert Pow256(0) == 1;
    } else {
      var init, last := s[..|s| - 1], s[|s| - 1];
      BigEndianSplit(init);
      assert init[1..] == s[1..][..|s| - 2];
      var p, rest := Pow256(|s| - 2), BigEndian(init[1..]);
      assert Pow256(|s| - 1) == 256 * p;
      assert (s[0] * p + rest) * 256 + last == s[0] * (256 * p) + (rest * 256 + last);
    }
  }

  lemma {:induction false} ZeroMeansZeros(s: bytes)
    ensures BigEndian(s) == 0 <==> s == Zeros(|s|)
  {
    if |s| == 0 {
    } else {
      var init, last := s[..|s| - 1], s[|s| - 1];
      ZeroMeansZeros(init);
      assert s == init + [last] && Zeros(|s|) == Zeros(|init|) + [0];
      assert s == Zeros(|s|) ==> last == Zeros(|s|)[|s| - 1] && init == Zeros(|s|)[..|s| - 1];
    }
  }

  /** An IPv4 neighbour is neither 0.0.0.0 nor in 224.0.0.0/4 (RFC 5771). */
  lemma Ipv4Neighbours(ip: bytes)
    requires |ip| == 4
    ensures NamesANeighbour(ip) <==> BigEndian(ip) != 0 && !(0xE000_0000 <= BigEndian(ip) < 0xF000_0000)
  {
    ZeroMeansZeros(ip);
    BigEndianSplit(ip);
    BigEndianBound(ip[1..]);
    assert Pow256(3) == 0x100_0000;
    hide BigEndian, Pow256;
  }

  /** An IPv6 neighbour is neither :: nor in ff00::/8 (RFC 4291 section 2.7). */
  lemma Ipv6Neighbours(ip: bytes)
    requires |ip| == 16
    ensures NamesANeighbour(ip) <==> 0 < BigEndian(ip) < 0xFF00_0000_0000_0000_0000_0000_0000_0000
  {
    ZeroMeansZeros(ip);
    BigEndianSplit(ip);
    BigEndianBound(ip[1..]);
    assert Pow256(7) == 0x100_0000_0000_0000;
    assert Pow256(15) == 0x1_0000_0000_0000_0000_0000_0000_0000_00;
    hide BigEndian, Pow256;
  }
}
