/** Messages about the system group that fit a datagram, every request among them, are read exactly as meant. */
module SnmpRequests {
  import opened Bytes
  import opened SnmpBer
  import opened Snmp
  import Oid
  import SnmpBerTheorems

  /** More than any UDP datagram carries. */
  const MAX_DATAGRAM := 65535

  function Digits(kind: SystemValue): seq<nat> {
    var last := match kind case Description => 1 case ObjectId => 2 case Uptime => 3 case Name => 5;
    [1, 3, 6, 1, 2, 1, 1, last, 0]
  }

  lemma {:induction false} JoinDigits(digits: seq<nat>, text: string)
    requires |digits| > 0 && |text| == 2 * |digits| - 1
    requires forall i :: 0 <= i < |digits| ==> digits[i] < 10 && text[2 * i] == Oid.DigitChar(digits[i])
    requires forall i :: 0 <= i < |digits| - 1 ==> text[2 * i + 1] == '.'
    ensures Oid.Join(Oid.TextAll(digits)) == text
  {
    var parts := Oid.TextAll(digits);
    assert parts[0] == [text[0]];
    if |digits| == 1 {
      assert text == [text[0]];
    } else {
      forall i | 0 <= i < |digits[1..]|
        ensures digits[1..][i] < 10 && text[2..][2 * i] == Oid.DigitChar(digits[1..][i]) {
        assert text[2..][2 * i] == text[2 * (i + 1)];
      }
      forall i | 0 <= i < |digits[1..]| - 1 ensures text[2..][2 * i + 1] == '.' {
        assert text[2..][2 * i + 1] == text[2 * (i + 1) + 1];
      }
      JoinDigits(digits[1..], text[2..]);
      assert parts[1..] == Oid.TextAll(digits[1..]);
      assert text[2 * 0 + 1] == '.';
      assert text == [text[0]] + "." + text[2..];
    }
  }

  lemma {:induction false} SmallArcs(numbers: seq<nat>)
    requires forall i :: 0 <= i < |numbers| ==> numbers[i] < 128
    ensures |Oid.Base128All(numbers)| == |numbers|
  {
    if |numbers| == 0 {
    } else {
      SmallArcs(numbers[1..]);
    }
  }

  lemma NameOfDigits(kind: SystemValue)
    ensures Oid.Join(Oid.TextAll(Digits(kind))) == OidOf(kind)
  {
    hide Oid.Join, Oid.TextAll;
    JoinDigits(Digits(kind), OidOf(kind));
  }

  lemma DigitsEncode(digits: seq<nat>)
    requires |digits| == 9 && digits[..2] == [1, 3] && forall i :: 2 <= i < 9 ==> digits[i] < 10
    ensures Oid.ValidArcs(digits) && |Oid.EncodeArcs(digits)| == 8
  {
    assert digits[0] == digits[..2][0] && digits[1] == digits[..2][1];
    SmallArcs(digits[2..]);
    assert |Oid.Base128(43)| == 1;
  }

  lemma NameIsCanonical(kind: SystemValue)
    ensures Oid.EncodeOid(OidOf(kind)).Ok? && |Oid.EncodeOid(OidOf(kind)).value| == 8
    ensures Oid.IsCanonical(OidOf(kind))
  {
    NameOfDigits(kind);
    var digits := Digits(kind);
    assert |digits| == 9 && digits[..2] == [1, 3];
    DigitsEncode(digits);
    hide OidOf, Digits;
    Oid.TextOfArcs(digits);
  }

  lemma TlvSize(tag: byte, body: bytes)
    requires |body| < SnmpBerTheorems.MAX_BODY
    ensures |Tlv(tag, body)| <= |body| + 6
  {
    SnmpBerTheorems.LengthOctets(|body|);
  }

  /** A binding of one of the names asked about, small enough for a datagram. */
  predicate IsSmall(bind: VarBind) {
    (exists kind :: bind.oid == OidOf(kind)) && 0 <= bind.tag < 256 && |bind.value| <= MAX_DATAGRAM
  }

  lemma SmallBinding(bind: VarBind)
    requires IsSmall(bind)
    ensures EncodeBinding(bind).Ok? && |EncodeBinding(bind).value| <= MAX_DATAGRAM + 26
    ensures Oid.IsCanonical(bind.oid)
  {
    var kind :| bind.oid == OidOf(kind);
    hide OidOf;
    NameIsCanonical(kind);
    var name := Oid.EncodeOid(bind.oid).value;
    var tag: byte := bind.tag;
    TlvSize(OBJECT_IDENTIFIER, name);
    TlvSize(tag, bind.value);
    TlvSize(SEQUENCE, Tlv(OBJECT_IDENTIFIER, name) + Tlv(tag, bind.value));
  }

  lemma {:induction false} SmallBindings(bindings: seq<VarBind>)
    requires |bindings| <= 4 && forall i :: 0 <= i < |bindings| ==> IsSmall(bindings[i])
    ensures EncodeBindings(bindings).Ok? && |EncodeBindings(bindings).value| <= (MAX_DATAGRAM + 26) * |bindings|
    ensures SnmpBerTheorems.CanonicalNames(bindings)
  {
    hide IsSmall, Oid.IsCanonical, EncodeBinding;
    if |bindings| == 0 {
    } else {
      SmallBinding(bindings[0]);
      SmallBindings(bindings[1..]);
      assert bindings == [bindings[0]] + bindings[1..];
    }
  }

  lemma IntegerSize(v: int)
    requires SnmpBerTheorems.FitsWire(v)
    ensures |IntegerTlv(v)| <= 11
  {
    SnmpBerTheorems.FiveOctets(v);
    TlvSize(INTEGER, IntegerBody(v));
  }

  /** A message of this size about the system group. */
  predicate IsSmallMessage(m: SnmpMessage) {
    && |m.community| <= MAX_DATAGRAM
    && 0 <= m.pduTag < 256
    && SnmpBerTheorems.FitsWire(m.version) && SnmpBerTheorems.FitsWire(m.requestId)
    && SnmpBerTheorems.FitsWire(m.errorStatus) && SnmpBerTheorems.FitsWire(m.errorIndex)
    && |m.bindings| <= 4 && forall i :: 0 <= i < |m.bindings| ==> IsSmall(m.bindings[i])
  }

  lemma SmallMessageIsUnderstood(m: SnmpMessage)
    requires IsSmallMessage(m)
    ensures EncodeMessage(m).Ok? && ParseMessage(EncodeMessage(m).value) == Ok(m)
  {
    SmallBindings(m.bindings);
    hide IsSmall, SnmpBerTheorems.CanonicalNames, EncodeBindings, ParseMessage, SnmpBerTheorems.FitsWire;
    var encoded := EncodeBindings(m.bindings).value;
    IntegerSize(m.requestId);
    IntegerSize(m.errorStatus);
    IntegerSize(m.errorIndex);
    IntegerSize(m.version);
    TlvSize(SEQUENCE, encoded);
    TlvSize(OCTET_STRING, m.community);
    var pdu := PduBody(m, encoded);
    var tag: byte := m.pduTag;
    TlvSize(tag, pdu);
    SnmpBerTheorems.MessageRoundTrip(m);
  }

  /** Every request a conversation can make, under any community the settings admit, parses back to itself. */
  lemma RequestIsUnderstood(version: Version, community: bytes, requestId: int, wanted: seq<SystemValue>)
    requires |community| <= 1020 && 1 <= requestId < 0x8000_0000 && |wanted| <= |ALL_VALUES|
    ensures var m := GetRequest(version, community, requestId, wanted);
            EncodeMessage(m).Ok? && ParseMessage(EncodeMessage(m).value) == Ok(m)
  {
    var m := GetRequest(version, community, requestId, wanted);
    hide OidOf;
    forall i | 0 <= i < |m.bindings| ensures IsSmall(m.bindings[i]) {
      assert m.bindings[i].oid == OidOf(wanted[i]);
    }
    hide IsSmall;
    SmallMessageIsUnderstood(m);
  }

  // ---------------------------------------------------------------- on the wire

  lemma {:induction false} SmallArcsAre(numbers: seq<nat>, octets: bytes)
    requires |numbers| == |octets| && forall i :: 0 <= i < |numbers| ==> numbers[i] == octets[i] < 128
    ensures Oid.Base128All(numbers) == octets
  {
    if |numbers| == 0 {
    } else {
      SmallArcsAre(numbers[1..], octets[1..]);
      assert Oid.Base128(numbers[0]) == [octets[0]];
      assert octets == [octets[0]] + octets[1..];
    }
  }

  function LastArc(kind: SystemValue): byte {
    match kind case Description => 1 case ObjectId => 2 case Uptime => 3 case Name => 5
  }

  lemma ArcOctets(digits: seq<nat>, last: byte)
    requires last < 128 && digits == [1, 3, 6, 1, 2, 1, 1, last, 0]
    ensures Oid.EncodeArcs(digits) == [0x2B, 6, 1, 2, 1, 1, last, 0]
  {
    assert digits[2..] == [6, 1, 2, 1, 1, last, 0];
    assert Oid.Base128(43) == [0x2B];
    assert Oid.EncodeArcs(digits) == Oid.Base128(43) + Oid.Base128All(digits[2..]);
    hide *;
    SmallArcsAre(digits[2..], [6, 1, 2, 1, 1, last, 0]);
  }

  /**
   * The octets of a value's name: 40 * 1 + 3 for the first two arcs (ITU-T X.690 section 8.19.4), then one for each.
   */
  lemma NameOctets(kind: SystemValue)
    ensures Oid.EncodeOid(OidOf(kind)) == Ok([0x2B, 6, 1, 2, 1, 1, LastArc(kind), 0])
  {
    NameOfDigits(kind);
    var digits := Digits(kind);
    assert |digits| == 9 && digits[..2] == [1, 3];
    ArcOctets(digits, LastArc(kind));
    DigitsEncode(digits);
    hide OidOf, Digits, LastArc, Oid.EncodeArcs;
    Oid.TextOfArcs(digits);
  }

  /** An element as ITU-T X.690 section 8.1 lays it out, its tag a number. */
  function Laid(tag: byte, body: bytes): bytes {
    [tag] + Length(|body|) + body
  }

  /** The tags on the wire: of the message and its lists 30, integers 02, the community 04, names 06. */
  lemma MessageLayout(m: SnmpMessage, bindings: bytes)
    requires EncodeBindings(m.bindings) == Ok(bindings) && 0 <= m.pduTag < 256
    ensures EncodeMessage(m)
         == Ok(Laid(0x30, Laid(0x02, IntegerBody(m.version))
                          + (Laid(0x04, m.community)
                             + Laid(m.pduTag, Laid(0x02, IntegerBody(m.requestId))
                                              + (Laid(0x02, IntegerBody(m.errorStatus))
                                                 + (Laid(0x02, IntegerBody(m.errorIndex)) + Laid(0x30, bindings)))))))
  {
    hide Length, IntegerBody, EncodeBindings;
  }

  lemma BindingLayout(bind: VarBind, name: bytes)
    requires Oid.EncodeOid(bind.oid) == Ok(name) && 0 <= bind.tag < 256
    ensures EncodeBinding(bind) == Ok(Laid(0x30, Laid(0x06, name) + Laid(bind.tag, bind.value)))
  {
    hide Length, Oid.EncodeOid;
  }

  /** A request is a GetRequest-PDU (A0), its status and index zero, each name bound to NULL (05). */
  lemma RequestLayout(version: Version, community: bytes, requestId: int, wanted: seq<SystemValue>)
    ensures var m := GetRequest(version, community, requestId, wanted);
            && m.version == (if version.V1? then 0 else 1) && m.community == community && m.pduTag == 0xA0
            && m.requestId == requestId && m.errorStatus == 0 && m.errorIndex == 0
            && |m.bindings| == |wanted|
            && forall i :: 0 <= i < |wanted| ==> m.bindings[i] == VarBind(OidOf(wanted[i]), 0x05, [])
  {
    hide OidOf;
  }

  /** Short lengths in one octet, long ones behind 81 to 84 and that many octets, most significant first. */
  lemma LengthLayout(size: nat)
    requires size < 0x1_0000_0000
    ensures Length(size)
         == if size < 128 then [size]
            else if size < 0x100 then [0x81, size]
            else if size < 0x1_0000 then [0x82, size / 0x100, size % 0x100]
            else if size < 0x100_0000 then [0x83, size / 0x1_0000, size / 0x100 % 0x100, size % 0x100]
            else [0x84, size / 0x100_0000, size / 0x1_0000 % 0x100, size / 0x100 % 0x100, size % 0x100]
  {
    assert size < 128 ==> Length(size) == [size];
    hide Length, SnmpBerTheorems.ByteCount, ToBytes;
    SnmpBerTheorems.LengthOctets(size);
    if size >= 128 {
      OctetsNeeded(size);
      ToBytesLayout(size);
      TopOctet(size);
    }
  }

  lemma TopOctet(size: nat)
    ensures size < 0x100 ==> size % 256 == size
    ensures size < 0x1_0000 ==> size / 0x100 % 256 == size / 0x100
    ensures size < 0x100_0000 ==> size / 0x1_0000 % 256 == size / 0x1_0000
    ensures size < 0x1_0000_0000 ==> size / 0x100_0000 % 256 == size / 0x100_0000
  {
  }

  lemma OctetsNeeded(size: nat)
    requires 0 < size < 0x1_0000_0000
    ensures SnmpBerTheorems.ByteCount(size)
         == if size < 0x100 then 1 else if size < 0x1_0000 then 2 else if size < 0x100_0000 then 3 else 4
  {
    BitLengthOfOctet(size);
    BitLengthOfOctet(size / 0x100);
    BitLengthOfOctet(size / 0x1_0000);
    BitLengthOfOctet(size / 0x100_0000);
    assert size / 0x100 / 0x100 == size / 0x1_0000 && size / 0x1_0000 / 0x100 == size / 0x100_0000;
    hide BitLength;
  }

  lemma ToBytesLayout(v: nat)
    ensures ToBytes(v, 1) == [v % 256]
    ensures ToBytes(v, 2) == [v / 0x100 % 256, v % 256]
    ensures ToBytes(v, 3) == [v / 0x1_0000 % 256, v / 0x100 % 256, v % 256]
    ensures ToBytes(v, 4) == [v / 0x100_0000 % 256, v / 0x1_0000 % 256, v / 0x100 % 256, v % 256]
  {
    hide ToBytes;
    OneOctet(v);
    TwoOctets(v);
    ThreeOctets(v);
    FourOctets(v);
  }

  lemma Quotients(v: nat)
    ensures v / 0x100 / 0x100 == v / 0x1_0000
    ensures v / 0x100 / 0x1_0000 == v / 0x100_0000
  {
    var q, r := v / 0x100_0000, v % 0x100_0000;
    assert v / 0x100 == q * 0x1_0000 + r / 0x100;
  }

  lemma FourOctets(v: nat)
    ensures ToBytes(v, 4) == [v / 0x100_0000 % 256, v / 0x1_0000 % 256, v / 0x100 % 256, v % 256]
  {
    hide ToBytes;
    Quotients(v);
    ThreeOctets(v / 0x100);
    LastOctet(v, 4);
  }

  lemma OneOctet(v: nat)
    ensures ToBytes(v, 1) == [v % 256]
  {
    assert ToBytes(v / 256, 0) == [];
    LastOctet(v, 1);
  }

  lemma TwoOctets(v: nat)
    ensures ToBytes(v, 2) == [v / 0x100 % 256, v % 256]
  {
    hide ToBytes;
    OneOctet(v / 256);
    LastOctet(v, 2);
  }

  lemma ThreeOctets(v: nat)
    ensures ToBytes(v, 3) == [v / 0x1_0000 % 256, v / 0x100 % 256, v % 256]
  {
    hide ToBytes;
    Quotients(v);
    TwoOctets(v / 0x100);
    LastOctet(v, 3);
  }

  lemma LastOctet(v: int, n: nat)
    requires n > 0
    ensures ToBytes(v, n) == ToBytes(v / 256, n - 1) + [v % 256]
  {
  }
}
