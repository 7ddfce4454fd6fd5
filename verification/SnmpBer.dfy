/**
 * SNMP messages in BER (ITU-T X.690 sections 8.1.3 and 8.3): the encoder, the element reader and the message parser.
 */
module SnmpBer {
  import opened Bytes
  import Oid

  const SEQUENCE: byte := 0x30
  const INTEGER: byte := 0x02
  const OCTET_STRING: byte := 0x04
  const NULL: byte := 0x05
  const OBJECT_IDENTIFIER: byte := 0x06
  const TIMETICKS: byte := 0x43
  const GET_REQUEST: byte := 0xA0
  const GET_RESPONSE: byte := 0xA2
  const LONG_FORM := 0x80
  const MAX_LENGTH_OCTETS := 4
  const MAX_INTEGER_OCTETS := 5

  datatype VarBind = VarBind(oid: string, tag: int, value: bytes)

  datatype SnmpMessage = SnmpMessage(version: int, community: bytes, pduTag: int, requestId: int,
                                     errorStatus: int, errorIndex: int, bindings: seq<VarBind>)

  datatype BerError =
    | HeaderPastEnd | IndefiniteLength | LengthFieldTooLong | LengthFieldPastEnd | ElementPastEnd
    | Missing | WrongTag(expected: byte, found: byte) | IntegerSize | TrailingBytes | BadOid(why: Oid.OidError)

  datatype EncodeError = NotAnIdentifier | TagNotAByte

  // ---------------------------------------------------------------- encoding

  /** The length octets; LONG_FORM | n is written out for a count n below 256. */
  function Length(size: nat): bytes {
    if size < LONG_FORM then [size]
    else
      var n := (BitLength(size) + 7) / 8;
      [LONG_FORM + n % LONG_FORM] + ToBytes(size, n)
  }

  function Tlv(tag: byte, body: bytes): bytes {
    [tag] + Length(|body|) + body
  }

  function IntegerOctets(value: int): nat {
    BitLength(if value < 0 then -value - 1 else value) / 8 + 1
  }

  function IntegerBody(value: int): bytes {
    ToBytes(value, IntegerOctets(value))
  }

  function IntegerTlv(value: int): bytes {
    Tlv(INTEGER, IntegerBody(value))
  }

  function TagOf(tag: int): Result<byte, EncodeError> {
    if 0 <= tag < 256 then Ok(tag) else Err(TagNotAByte)
  }

  function EncodeBinding(bind: VarBind): Result<bytes, EncodeError> {
    var name := Oid.EncodeOid(bind.oid);
    if name.Err? then Err(NotAnIdentifier)
    else
      var tag :- TagOf(bind.tag);
      Ok(Tlv(SEQUENCE, Tlv(OBJECT_IDENTIFIER, name.value) + Tlv(tag, bind.value)))
  }

  function EncodeBindings(bindings: seq<VarBind>): Result<bytes, EncodeError> {
    if |bindings| == 0 then Ok([])
    else
      var first :- EncodeBinding(bindings[0]);
      var rest :- EncodeBindings(bindings[1..]);
      Ok(first + rest)
  }

  function PduBody(m: SnmpMessage, bindings: bytes): bytes {
    IntegerTlv(m.requestId) + (IntegerTlv(m.errorStatus) + (IntegerTlv(m.errorIndex) + Tlv(SEQUENCE, bindings)))
  }

  function MessageBody(m: SnmpMessage, pduTag: byte, bindings: bytes): bytes {
    IntegerTlv(m.version) + (Tlv(OCTET_STRING, m.community) + Tlv(pduTag, PduBody(m, bindings)))
  }

  function EncodeMessage(m: SnmpMessage): Result<bytes, EncodeError> {
    var bindings :- EncodeBindings(m.bindings);
    var pduTag :- TagOf(m.pduTag);
    Ok(Tlv(SEQUENCE, MessageBody(m, pduTag, bindings)))
  }

  // ---------------------------------------------------------------- decoding, as functions of the unread bytes

  datatype Element = Element(tag: byte, body: bytes, rest: bytes)

  function NextElement(unread: bytes): (r: Result<Element, BerError>)
    ensures r.Ok? ==> |r.value.rest| < |unread|
  {
    if |unread| < 2 then Err(HeaderPastEnd)
    else if unread[1] < LONG_FORM then Cut(unread[0], unread[2..], unread[1])
    else
      var octets := unread[1] - LONG_FORM;
      if octets == 0 then Err(IndefiniteLength)
      else if octets > MAX_LENGTH_OCTETS then Err(LengthFieldTooLong)
      else if 2 + octets > |unread| then Err(LengthFieldPastEnd)
      else Cut(unread[0], unread[2 + octets..], BigEndian(unread[2..2 + octets]))
  }

  function Cut(tag: byte, content: bytes, size: nat): Result<Element, BerError> {
    if size > |content| then Err(ElementPastEnd) else Ok(Element(tag, content[..size], content[size..]))
  }

  function Expect(unread: bytes, tag: byte): (r: Result<Element, BerError>)
    ensures r.Ok? ==> |r.value.rest| < |unread|
  {
    if |unread| == 0 then Err(Missing)
    else
      var e :- NextElement(unread);
      if e.tag != tag then Err(WrongTag(tag, e.tag)) else Ok(e)
  }

  /** int.from_bytes(body, "big", signed=True). */
  function SignedBigEndian(body: bytes): int
    requires |body| > 0
  {
    if |body| == 1 then (if body[0] < 128 then body[0] else body[0] as int - 256)
    else SignedBigEndian(body[..|body| - 1]) * 256 + body[|body| - 1]
  }

  datatype Number = Number(value: int, rest: bytes)

  function ReadInteger(unread: bytes): Result<Number, BerError> {
    var e :- Expect(unread, INTEGER);
    if 1 <= |e.body| <= MAX_INTEGER_OCTETS then Ok(Number(SignedBigEndian(e.body), e.rest)) else Err(IntegerSize)
  }

  function ParseBinding(body: bytes): Result<VarBind, BerError> {
    var name :- Expect(body, OBJECT_IDENTIFIER);
    var oid := Oid.DecodeOid(name.body);
    if oid.Err? then Err(BadOid(oid.error))
    else
      var e :- NextElement(name.rest);
      if |e.rest| > 0 then Err(TrailingBytes) else Ok(VarBind(oid.value, e.tag, e.body))
  }

  function ParseBindings(unread: bytes): Result<seq<VarBind>, BerError>
    decreases |unread|
  {
    if |unread| == 0 then Ok([])
    else
      var e :- Expect(unread, SEQUENCE);
      var first :- ParseBinding(e.body);
      var rest :- ParseBindings(e.rest);
      Ok([first] + rest)
  }

  datatype Pdu = Pdu(requestId: int, errorStatus: int, errorIndex: int, bindings: seq<VarBind>)

  function ParsePdu(body: bytes): Result<Pdu, BerError> {
    var requestId :- ReadInteger(body);
    var errorStatus :- ReadInteger(requestId.rest);
    var errorIndex :- ReadInteger(errorStatus.rest);
    var e :- Expect(errorIndex.rest, SEQUENCE);
    var bindings :- ParseBindings(e.body);
    if |e.rest| > 0 then Err(TrailingBytes)
    else Ok(Pdu(requestId.value, errorStatus.value, errorIndex.value, bindings))
  }

  function ParseBody(body: bytes): Result<SnmpMessage, BerError> {
    var version :- ReadInteger(body);
    var community :- Expect(version.rest, OCTET_STRING);
    if |community.rest| == 0 then Err(Missing)
    else
      var e :- NextElement(community.rest);
      if |e.rest| > 0 then Err(TrailingBytes)
      else
        var pdu :- ParsePdu(e.body);
        Ok(SnmpMessage(version.value, community.body, e.tag, pdu.requestId, pdu.errorStatus, pdu.errorIndex,
          pdu.bindings))
  }

  function ParseMessage(data: bytes): Result<SnmpMessage, BerError> {
    var e :- Expect(data, SEQUENCE);
    if |e.rest| > 0 then Err(TrailingBytes) else ParseBody(e.body)
  }
}
