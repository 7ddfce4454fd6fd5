/** What the SNMP codec promises: an exact round trip, and encoding as the unique shortest form of a parsed message. */
module SnmpBerTheorems {
  import opened Bytes
  import opened SnmpBer
  import Oid

  const MAX_BODY := 0x1_0000_0000

  // ---------------------------------------------------------------- integers

  lemma IntegerOctetsStep(v: int)
    ensures -128 <= v < 128 ==> IntegerOctets(v) == 1
    ensures !(-128 <= v < 128) ==> IntegerOctets(v) == 1 + IntegerOctets(v / 256)
  {
    var magnitude := if v < 0 then -v - 1 else v;
    BitLengthOfOctet(magnitude);
    BitLengthOfOctet(magnitude / 256);
    assert (if v / 256 < 0 then -(v / 256) - 1 else v / 256) == magnitude / 256;
  }

  /** The integer body reads back as the same number, negative numbers included. */
  lemma {:induction false} IntegerRoundTrip(v: int)
    ensures SignedBigEndian(IntegerBody(v)) == v
    decreases IntegerOctets(v)
  {
    IntegerOctetsStep(v);
    var body := IntegerBody(v);
    if -128 <= v < 128 {
      assert body == ToBytes(v / 256, 0) + [v % 256];
    } else {
      IntegerRoundTrip(v / 256);
      assert body[..|body| - 1] == IntegerBody(v / 256);
    }
  }

  /** No body denoting the same number is shorter, and none as short is different. */
  lemma {:induction false} IntegerIsShortest(body: bytes)
    requires |body| > 0
    ensures Shrinks(IntegerBody(SignedBigEndian(body)), body)
    decreases |body|
  {
    var v := SignedBigEndian(body);
    IntegerOctetsStep(v);
    if |body| == 1 {
      assert IntegerBody(v) == ToBytes(v / 256, 0) + [v % 256];
    } else {
      var init := body[..|body| - 1];
      IntegerIsShortest(init);
      assert v / 256 == SignedBigEndian(init) && v % 256 == body[|body| - 1];
      if IntegerOctets(v) > 1 {
        assert IntegerBody(v) == IntegerBody(v / 256) + [v % 256];
        assert body == init + [body[|body| - 1]];
      }
    }
  }

  predicate FitsWire(v: int) {
    -0x80_0000_0000 <= v < 0x80_0000_0000
  }

  /** Five octets are enough exactly for the numbers of 40 signed bits. */
  lemma FiveOctets(v: int)
    ensures IntegerOctets(v) <= MAX_INTEGER_OCTETS <==> FitsWire(v)
  {
    var v1 := v / 256;
    var v2 := v1 / 256;
    var v3 := v2 / 256;
    var v4 := v3 / 256;
    IntegerOctetsStep(v);
    IntegerOctetsStep(v1);
    IntegerOctetsStep(v2);
    IntegerOctetsStep(v3);
    IntegerOctetsStep(v4);
    assert v4 == v / 0x1_0000_0000;
    assert v3 == v / 0x100_0000;
    assert v2 == v / 0x1_0000;
  }

  // ---------------------------------------------------------------- lengths and elements

  function ByteCount(size: nat): nat {
    (BitLength(size) + 7) / 8
  }

  lemma {:induction false} ByteCountBound(size: nat, k: nat)
    requires size < Pow256(k)
    ensures ByteCount(size) <= k
  {
    BitLengthOfOctet(size);
    if k == 0 || size < 256 {
    } else {
      ByteCountBound(size / 256, k - 1);
    }
  }

  lemma {:induction false} ByteCountHolds(size: nat)
    ensures size < Pow256(ByteCount(size))
  {
    BitLengthOfOctet(size);
    if size >= 256 {
      ByteCountHolds(size / 256);
      assert ByteCount(size) == 1 + ByteCount(size / 256);
    } else if size > 0 {
      assert Pow256(1) == 256 * Pow256(0);
    }
  }

  lemma LengthOctets(size: nat)
    requires size < MAX_BODY
    ensures |Length(size)| <= 5
    ensures size >= LONG_FORM ==>
              && 1 <= ByteCount(size) <= 4
              && Length(size) == [LONG_FORM + ByteCount(size)] + ToBytes(size, ByteCount(size))
  {
    assert Pow256(4) == MAX_BODY;
    hide Pow256, BitLength, ToBytes;
    ByteCountBound(size, 4);
    BitLengthOfOctet(size);
  }

  lemma LengthGrows(a: nat, b: nat)
    requires a <= b < MAX_BODY
    ensures |Length(a)| <= |Length(b)|
  {
    LengthOctets(a);
    LengthOctets(b);
    ByteCountHolds(b);
    ByteCountBound(a, ByteCount(b));
  }

  /** Reading an encoded element gives back its tag and body and leaves what followed it. */
  lemma ReadsTlv(tag: byte, body: bytes, tail: bytes)
    requires |body| < MAX_BODY
    ensures NextElement(Tlv(tag, body) + tail) == Ok(Element(tag, body, tail))
  {
    var size := |body|;
    var data := Tlv(tag, body) + tail;
    LengthOctets(size);
    var header := [tag] + Length(size);
    assert data == header + (body + tail);
    assert (body + tail)[..size] == body && (body + tail)[size..] == tail;
    if size < LONG_FORM {
      assert data[2..] == body + tail;
    } else {
      var n := ByteCount(size);
      assert data[1] == LONG_FORM + n;
      assert data[2..2 + n] == ToBytes(size, n);
      assert data[2 + n..] == body + tail;
      ByteCountHolds(size);
      BigEndianOfToBytes(size, n);
    }
  }

  lemma ReadsExpected(tag: byte, body: bytes, tail: bytes)
    requires |body| < MAX_BODY
    ensures Expect(Tlv(tag, body) + tail, tag) == Ok(Element(tag, body, tail))
  {
    ReadsTlv(tag, body, tail);
  }

  /** `a` is no longer than `b`, and as long only when it is `b`. */
  ghost predicate Shrinks(a: bytes, b: bytes) {
    |a| <= |b| && (|a| == |b| ==> a == b)
  }

  lemma ShrinksTogether(a: bytes, b: bytes, a': bytes, b': bytes)
    requires Shrinks(a, b) && Shrinks(a', b')
    ensures Shrinks(a + a', b + b')
  {
  }

  lemma ShrinksInside(tag: byte, a: bytes, b: bytes)
    requires Shrinks(a, b) && |b| < MAX_BODY
    ensures Shrinks(Tlv(tag, a), Tlv(tag, b))
  {
    LengthGrows(|a|, |b|);
  }

  lemma {:induction false} Pow256Grows(a: nat, b: nat)
    requires a <= b
    ensures Pow256(a) <= Pow256(b)
  {
    if a == b {
    } else {
      Pow256Grows(a, b - 1);
    }
  }

  lemma LongFieldShrinks(size: nat, field: bytes)
    requires 1 <= |field| <= MAX_LENGTH_OCTETS && size == BigEndian(field)
    ensures size < MAX_BODY
    ensures Shrinks(Length(size), [LONG_FORM + |field|] + field)
  {
    assert size < MAX_BODY && (size >= LONG_FORM ==> ByteCount(size) <= |field|) by {
      BigEndianBound(field);
      Pow256Grows(|field|, 4);
      assert Pow256(4) == MAX_BODY;
      ByteCountBound(size, |field|);
    }
    assert ToBytes(size, |field|) == field by {
      ToBytesOfBigEndian(field);
    }
    LengthOctets(size);
  }

  /** The bytes one element took. */
  function Taken(unread: bytes, rest: bytes): bytes
    requires |rest| <= |unread|
  {
    unread[..|unread| - |rest|]
  }

  lemma LongElementShrinks(tag: byte, field: bytes, body: bytes)
    requires 1 <= |field| <= MAX_LENGTH_OCTETS && |body| == BigEndian(field)
    ensures |body| < MAX_BODY
    ensures Shrinks(Tlv(tag, body), [tag] + ([LONG_FORM + |field|] + field) + body)
  {
    hide Length, BigEndian;
    LongFieldShrinks(|body|, field);
    var header := [LONG_FORM + |field|] + field;
    ShrinksTogether([tag], [tag], Length(|body|), header);
    ShrinksTogether([tag] + Length(|body|), [tag] + header, body, body);
  }

  /** An element read from any bytes is never longer once re-encoded. */
  lemma ElementShrinks(unread: bytes)
    requires NextElement(unread).Ok?
    ensures var e := NextElement(unread).value;
            && |e.body| < MAX_BODY
            && |e.body| <= |unread|
            && unread == Taken(unread, e.rest) + e.rest
            && Shrinks(Tlv(e.tag, e.body), Taken(unread, e.rest))
            && |Taken(unread, e.rest)| <= 2 + MAX_LENGTH_OCTETS + |e.body|
  {
    var e := NextElement(unread).value;
    if unread[1] < LONG_FORM {
      assert unread == Tlv(e.tag, e.body) + e.rest;
    } else {
      var field := unread[2..2 + (unread[1] - LONG_FORM)];
      hide Length, Shrinks, BigEndian;
      LongElementShrinks(unread[0], field, e.body);
      var header := [unread[1]] + field;
      assert unread == [e.tag] + header + e.body + e.rest;
      assert Taken(unread, e.rest) == [e.tag] + header + e.body;
    }
  }

  // ---------------------------------------------------------------- round trip

  predicate Wire(m: SnmpMessage) {
    && FitsWire(m.version)
    && FitsWire(m.requestId)
    && FitsWire(m.errorStatus)
    && FitsWire(m.errorIndex)
    && CanonicalNames(m.bindings)
  }

  predicate CanonicalNames(bindings: seq<VarBind>) {
    forall i :: 0 <= i < |bindings| ==> Oid.IsCanonical(bindings[i].oid)
  }

  lemma ReadsInteger(v: int, tail: bytes)
    ensures |IntegerBody(v)| < MAX_BODY ==>
              ReadInteger(IntegerTlv(v) + tail)
              == if FitsWire(v) then Ok(Number(v, tail)) else Err(IntegerSize)
  {
    FiveOctets(v);
    if |IntegerBody(v)| < MAX_BODY {
      ReadsExpected(INTEGER, IntegerBody(v), tail);
      IntegerRoundTrip(v);
    }
  }

  lemma ReadsBinding(bind: VarBind, name: bytes, tag: byte)
    requires Oid.EncodeOid(bind.oid) == Ok(name) && bind.tag == tag
    requires |name| < MAX_BODY && |bind.value| < MAX_BODY
    ensures var body := Tlv(OBJECT_IDENTIFIER, name) + Tlv(tag, bind.value);
            && ParseBinding(body).Ok?
            && (ParseBinding(body).value == bind <==> Oid.IsCanonical(bind.oid))
  {
    ReadsExpected(OBJECT_IDENTIFIER, name, Tlv(tag, bind.value));
    ReadsTlv(tag, bind.value, []);
    assert Tlv(tag, bind.value) + [] == Tlv(tag, bind.value);
    Oid.EncodeThenDecode(bind.oid);
  }

  /** One encoded binding and what follows it; `parsed` is what is read for it. */
  lemma ReadsBindingThen(bind: VarBind, first: bytes, rest: bytes) returns (parsed: VarBind)
    requires EncodeBinding(bind) == Ok(first) && |first| < MAX_BODY
    ensures |first| > 0
    ensures ParseBindings(first + rest).Ok? <==> ParseBindings(rest).Ok?
    ensures ParseBindings(rest).Ok? ==> ParseBindings(first + rest).value == [parsed] + ParseBindings(rest).value
    ensures parsed == bind <==> Oid.IsCanonical(bind.oid)
  {
    var name := Oid.EncodeOid(bind.oid).value;
    var tag := TagOf(bind.tag).value;
    var body := Tlv(OBJECT_IDENTIFIER, name) + Tlv(tag, bind.value);
    assert first == Tlv(SEQUENCE, body);
    hide Length, EncodeBinding, Oid.EncodeOid, Oid.IsCanonical, NextElement, Expect, ParseBinding;
    ReadsExpected(SEQUENCE, body, rest);
    ReadsBinding(bind, name, tag);
    parsed := ParseBinding(body).value;
  }

  lemma {:induction false} ReadsBindings(bindings: seq<VarBind>, encoded: bytes)
    requires EncodeBindings(bindings) == Ok(encoded) && |encoded| < MAX_BODY
    ensures ParseBindings(encoded).Ok?
    ensures ParseBindings(encoded).value == bindings <==> CanonicalNames(bindings)
  {
    hide EncodeBinding, Oid.IsCanonical, ParseBinding, NextElement, Expect;
    if |bindings| == 0 {
    } else {
      var rest := EncodeBindings(bindings[1..]).value;
      ReadsBindings(bindings[1..], rest);
      var parsed := ReadsBindingThen(bindings[0], EncodeBinding(bindings[0]).value, rest);
      assert bindings == [bindings[0]] + bindings[1..];
      assert ([parsed] + ParseBindings(rest).value)[1..] == ParseBindings(rest).value;
    }
  }

  lemma ReadsPdu(m: SnmpMessage, encoded: bytes)
    requires EncodeBindings(m.bindings) == Ok(encoded) && |PduBody(m, encoded)| < MAX_BODY
    ensures ParsePdu(PduBody(m, encoded)) == Ok(Pdu(m.requestId, m.errorStatus, m.errorIndex, m.bindings))
       <==> (&& FitsWire(m.requestId)
             && FitsWire(m.errorStatus)
             && FitsWire(m.errorIndex)
             && CanonicalNames(m.bindings))
  {
    var list := Tlv(SEQUENCE, encoded);
    var third := IntegerTlv(m.errorIndex) + list;
    var second := IntegerTlv(m.errorStatus) + third;
    ReadsInteger(m.requestId, second);
    ReadsInteger(m.errorStatus, third);
    ReadsInteger(m.errorIndex, list);
    assert list + [] == list;
    ReadsExpected(SEQUENCE, encoded, []);
    ReadsBindings(m.bindings, encoded);
  }

  lemma ReadsBody(m: SnmpMessage, encoded: bytes)
    requires EncodeBindings(m.bindings) == Ok(encoded) && 0 <= m.pduTag < 256
    requires |MessageBody(m, m.pduTag, encoded)| < MAX_BODY
    ensures ParseBody(MessageBody(m, m.pduTag, encoded)) == Ok(m) <==> Wire(m)
  {
    var pdu := PduBody(m, encoded);
    var last := Tlv(m.pduTag, pdu);
    var middle := Tlv(OCTET_STRING, m.community) + last;
    ReadsInteger(m.version, middle);
    ReadsExpected(OCTET_STRING, m.community, last);
    assert last + [] == last;
    ReadsTlv(m.pduTag, pdu, []);
    ReadsPdu(m, encoded);
  }

  /**
   * For every message the encoder accepts, parsing its bytes gives the message back if and only if its integers
   * fit five signed octets, its identifiers are written without leading zeros and its body is below 2^32 octets.
   */
  lemma MessageRoundTrip(m: SnmpMessage)
    requires EncodeMessage(m).Ok?
    ensures ParseMessage(EncodeMessage(m).value) == Ok(m) <==> Wire(m) && |BodyOf(m)| < MAX_BODY
  {
    var body := BodyOf(m);
    var data := EncodeMessage(m).value;
    assert data == Tlv(SEQUENCE, body);
    if |body| < MAX_BODY {
      ReadsExpected(SEQUENCE, body, []);
      assert data + [] == data;
      ReadsBody(m, EncodeBindings(m.bindings).value);
    } else {
      HugeLength(|body|);
      if ParseMessage(data).Ok? {
        ElementShrinks(data);
      }
    }
  }

  function BodyOf(m: SnmpMessage): bytes
    requires EncodeMessage(m).Ok?
  {
    MessageBody(m, m.pduTag, EncodeBindings(m.bindings).value)
  }

  lemma HugeLength(size: nat)
    requires size >= MAX_BODY
    ensures |Length(size)| >= 6
  {
    ByteCountHolds(size);
    assert Pow256(4) == MAX_BODY;
    if ByteCount(size) <= 4 {
      Pow256Grows(ByteCount(size), 4);
    }
  }

  // ---------------------------------------------------------------- normal form

  /** Rewriting one element's content and what follows it, neither growing, does not grow the whole. */
  lemma Rewritten(unread: bytes, body: bytes, tail: bytes)
    requires NextElement(unread).Ok?
    requires Shrinks(body, NextElement(unread).value.body) && Shrinks(tail, NextElement(unread).value.rest)
    ensures Shrinks(Tlv(NextElement(unread).value.tag, body) + tail, unread)
  {
    var e := NextElement(unread).value;
    ElementShrinks(unread);
    ShrinksInside(e.tag, body, e.body);
    ShrinksTogether(Tlv(e.tag, body), Taken(unread, e.rest), tail, e.rest);
  }

  lemma RewrittenLast(unread: bytes, body: bytes)
    requires NextElement(unread).Ok? && NextElement(unread).value.rest == []
    requires Shrinks(body, NextElement(unread).value.body)
    ensures Shrinks(Tlv(NextElement(unread).value.tag, body), unread)
  {
    var tlv := Tlv(NextElement(unread).value.tag, body);
    Rewritten(unread, body, []);
    assert tlv + [] == tlv;
  }

  lemma RewrittenInteger(unread: bytes, tail: bytes)
    requires ReadInteger(unread).Ok? && Shrinks(tail, ReadInteger(unread).value.rest)
    ensures Shrinks(IntegerTlv(ReadInteger(unread).value.value) + tail, unread)
  {
    var e := NextElement(unread).value;
    IntegerIsShortest(e.body);
    Rewritten(unread, IntegerBody(SignedBigEndian(e.body)), tail);
  }

  lemma BindingShrinks(body: bytes)
    requires ParseBinding(body).Ok? && |body| < MAX_BODY
    ensures EncodeBinding(ParseBinding(body).value).Ok?
    ensures Shrinks(EncodeBinding(ParseBinding(body).value).value, Tlv(SEQUENCE, body))
    ensures Oid.IsCanonical(ParseBinding(body).value.oid)
  {
    var name := Expect(body, OBJECT_IDENTIFIER).value;
    Oid.DecodeThenEncode(name.body);
    var e := NextElement(name.rest).value;
    RewrittenLast(name.rest, e.body);
    Rewritten(body, name.body, Tlv(e.tag, e.body));
    ShrinksInside(SEQUENCE, Tlv(OBJECT_IDENTIFIER, name.body) + Tlv(e.tag, e.body), body);
  }

  lemma {:induction false} BindingsShrink(unread: bytes)
    requires ParseBindings(unread).Ok?
    ensures EncodeBindings(ParseBindings(unread).value).Ok?
    ensures Shrinks(EncodeBindings(ParseBindings(unread).value).value, unread)
    ensures CanonicalNames(ParseBindings(unread).value)
    decreases |unread|
  {
    if |unread| == 0 {
    } else {
      ElementShrinks(unread);
      var e := Expect(unread, SEQUENCE).value;
      hide EncodeBinding, ParseBinding, NextElement, Oid.IsCanonical, Shrinks;
      BindingShrinks(e.body);
      BindingsShrink(e.rest);
      var bind := ParseBinding(e.body).value;
      var rest := ParseBindings(e.rest).value;
      var bindings := ParseBindings(unread).value;
      assert bindings == [bind] + rest && bindings[1..] == rest;
      ShrinksTogether(EncodeBinding(bind).value, Taken(unread, e.rest), EncodeBindings(rest).value, e.rest);
    }
  }

  lemma PduShrinks(body: bytes, m: SnmpMessage)
    requires ParsePdu(body) == Ok(Pdu(m.requestId, m.errorStatus, m.errorIndex, m.bindings))
    ensures EncodeBindings(m.bindings).Ok?
    ensures Shrinks(PduBody(m, EncodeBindings(m.bindings).value), body)
    ensures CanonicalNames(m.bindings)
  {
    var first := ReadInteger(body).value;
    var second := ReadInteger(first.rest).value;
    var third := ReadInteger(second.rest).value;
    var e := Expect(third.rest, SEQUENCE).value;
    BindingsShrink(e.body);
    var encoded := EncodeBindings(m.bindings).value;
    RewrittenLast(third.rest, encoded);
    var list := Tlv(SEQUENCE, encoded);
    RewrittenInteger(second.rest, list);
    var two := IntegerTlv(m.errorIndex) + list;
    RewrittenInteger(first.rest, two);
    RewrittenInteger(body, IntegerTlv(m.errorStatus) + two);
  }

  lemma BodyShrinks(body: bytes)
    requires ParseBody(body).Ok?
    ensures var m := ParseBody(body).value;
            && EncodeMessage(m).Ok?
            && Shrinks(BodyOf(m), body)
            && Wire(m)
  {
    var m := ParseBody(body).value;
    var version := ReadInteger(body).value;
    var community := Expect(version.rest, OCTET_STRING).value;
    var e := NextElement(community.rest).value;
    PduShrinks(e.body, m);
    var pdu := PduBody(m, EncodeBindings(m.bindings).value);
    RewrittenLast(community.rest, pdu);
    Rewritten(version.rest, m.community, Tlv(e.tag, pdu));
    RewrittenInteger(body, Tlv(OCTET_STRING, m.community) + Tlv(e.tag, pdu));
    IntegersFit(body, e.body);
  }

  lemma IntegersFit(body: bytes, pdu: bytes)
    ensures ReadInteger(body).Ok? ==> FitsWire(ReadInteger(body).value.value)
    ensures ParsePdu(pdu).Ok? ==>
              && FitsWire(ParsePdu(pdu).value.requestId)
              && FitsWire(ParsePdu(pdu).value.errorStatus)
              && FitsWire(ParsePdu(pdu).value.errorIndex)
  {
    forall unread | ReadInteger(unread).Ok? ensures FitsWire(ReadInteger(unread).value.value) {
      FiveOctets(ReadInteger(unread).value.value);
      IntegerIsShortest(Expect(unread, INTEGER).value.body);
    }
  }

  /**
   * Normal form. Every byte string the parser accepts as `m` re-encodes, the encoding parses to `m` again, and it is
   * the one shortest byte string that does: anything else parsing to `m` is strictly longer.
   */
  lemma NormalForm(data: bytes)
    requires ParseMessage(data).Ok?
    ensures var m := ParseMessage(data).value;
            && EncodeMessage(m).Ok?
            && ParseMessage(EncodeMessage(m).value) == Ok(m)
            && |EncodeMessage(m).value| <= |data|
            && (|EncodeMessage(m).value| == |data| <==> EncodeMessage(m).value == data)
  {
    var m := ParseMessage(data).value;
    var e := Expect(data, SEQUENCE).value;
    ElementShrinks(data);
    BodyShrinks(e.body);
    RewrittenLast(data, BodyOf(m));
    MessageRoundTrip(m);
  }
}
