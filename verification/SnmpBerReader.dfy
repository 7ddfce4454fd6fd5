/** The cursor the messages are really parsed with, proved against the functions of SnmpBer. */
module SnmpBerReader {
  import opened Bytes
  import opened SnmpBer
  import Oid

  class Reader {
    const data: bytes
    var position: nat

    ghost predicate Valid()
      reads this
    {
      position <= |data|
    }

    ghost function Unread(): bytes
      requires Valid()
      reads this
    {
      data[position..]
    }

    constructor (data: bytes)
      ensures Valid() && Unread() == data
    {
      this.data := data;
      position := 0;
    }

    predicate AtEnd()
      requires Valid()
      reads this
      ensures AtEnd() <==> Unread() == []
    {
      position == |data|
    }

    /** The next element; the cursor moves past it, or stays where it was on an error. */
    method Next() returns (r: Result<(byte, bytes), BerError>)
      requires Valid()
      modifies this
      ensures Valid()
      ensures match NextElement(old(Unread()))
              case Ok(e) => r == Ok((e.tag, e.body)) && Unread() == e.rest
              case Err(why) => r == Err(why) && position == old(position)
    {
      var start := position + 2;
      if start > |data| {
        return Err(HeaderPastEnd);
      }
      var tag := data[position];
      var size: nat := data[position + 1];
      ghost var unread := Unread();
      assert unread[0] == tag && unread[1] == size && unread[2..] == data[start..];
      if size >= LONG_FORM {
        var octets := size - LONG_FORM;
        if octets == 0 {
          return Err(IndefiniteLength);
        }
        if octets > MAX_LENGTH_OCTETS {
          return Err(LengthFieldTooLong);
        }
        if start + octets > |data| {
          return Err(LengthFieldPastEnd);
        }
        assert unread[2..2 + octets] == data[start..start + octets];
        assert unread[2 + octets..] == data[start + octets..];
        size, start := BigEndian(data[start..start + octets]), start + octets;
      }
      var end := start + size;
      if end > |data| {
        return Err(ElementPastEnd);
      }
      assert data[start..][..size] == data[start..end] && data[start..][size..] == data[end..];
      position := end;
      return Ok((tag, data[start..end]));
    }

    method ExpectTag(tag: byte) returns (r: Result<bytes, BerError>)
      requires Valid()
      modifies this
      ensures Valid()
      ensures match Expect(old(Unread()), tag)
              case Ok(e) => r == Ok(e.body) && Unread() == e.rest
              case Err(why) => r == Err(why)
    {
      if AtEnd() {
        return Err(Missing);
      }
      var found :- Next();
      if found.0 != tag {
        return Err(WrongTag(tag, found.0));
      }
      return Ok(found.1);
    }

    method Integer() returns (r: Result<int, BerError>)
      requires Valid()
      modifies this
      ensures Valid()
      ensures match ReadInteger(old(Unread()))
              case Ok(n) => r == Ok(n.value) && Unread() == n.rest
              case Err(why) => r == Err(why)
    {
      var body :- ExpectTag(INTEGER);
      if !(1 <= |body| <= MAX_INTEGER_OCTETS) {
        return Err(IntegerSize);
      }
      return Ok(SignedBigEndian(body));
    }
  }

  /** One pass of the source's binding loop. */
  method Binding(element: bytes) returns (r: Result<VarBind, BerError>)
    ensures r == ParseBinding(element)
  {
    var binding := new Reader(element);
    var name :- binding.ExpectTag(OBJECT_IDENTIFIER);
    var oid := Oid.DecodeOid(name);
    if oid.Err? {
      return Err(BadOid(oid.error));
    }
    var value :- binding.Next();
    if !binding.AtEnd() {
      return Err(TrailingBytes);
    }
    return Ok(VarBind(oid.value, value.0, value.1));
  }

  /** The loop's result once `found` is read and `unread` is left. */
  ghost function Remaining(found: seq<VarBind>, unread: bytes): Result<seq<VarBind>, BerError> {
    var rest :- ParseBindings(unread);
    Ok(found + rest)
  }

  lemma RemainingStep(found: seq<VarBind>, unread: bytes)
    requires |unread| > 0 && Expect(unread, SEQUENCE).Ok? && ParseBinding(Expect(unread, SEQUENCE).value.body).Ok?
    ensures var e := Expect(unread, SEQUENCE).value;
            Remaining(found, unread) == Remaining(found + [ParseBinding(e.body).value], e.rest)
  {
    var e := Expect(unread, SEQUENCE).value;
    var rest := ParseBindings(e.rest);
    if rest.Ok? {
      var first := ParseBinding(e.body).value;
      assert found + ([first] + rest.value) == found + [first] + rest.value;
    }
  }

  method Bindings(body: bytes) returns (r: Result<seq<VarBind>, BerError>)
    ensures r == ParseBindings(body)
  {
    var reader := new Reader(body);
    var found: seq<VarBind> := [];
    assert ParseBindings(body).Ok? ==> [] + ParseBindings(body).value == ParseBindings(body).value;
    while !reader.AtEnd()
      invariant reader.Valid()
      invariant Remaining(found, reader.Unread()) == ParseBindings(body)
      decreases |reader.Unread()|
    {
      ghost var unread := reader.Unread();
      var element :- reader.ExpectTag(SEQUENCE);
      var bind :- Binding(element);
      RemainingStep(found, unread);
      found := found + [bind];
    }
    assert found + [] == found;
    return Ok(found);
  }

  method Parse(data: bytes) returns (r: Result<SnmpMessage, BerError>)
    ensures r == ParseMessage(data)
  {
    var outer := new Reader(data);
    var messageBody :- outer.ExpectTag(SEQUENCE);
    if !outer.AtEnd() {
      return Err(TrailingBytes);
    }
    var message := new Reader(messageBody);
    var version :- message.Integer();
    var community :- message.ExpectTag(OCTET_STRING);
    if message.AtEnd() {
      return Err(Missing);
    }
    var element :- message.Next();
    if !message.AtEnd() {
      return Err(TrailingBytes);
    }
    var pdu := new Reader(element.1);
    var requestId :- pdu.Integer();
    var errorStatus :- pdu.Integer();
    var errorIndex :- pdu.Integer();
    var list :- pdu.ExpectTag(SEQUENCE);
    var bindings :- Bindings(list);
    if !pdu.AtEnd() {
      return Err(TrailingBytes);
    }
    return Ok(SnmpMessage(version, community, element.0, requestId, errorStatus, errorIndex, bindings));
  }
}
