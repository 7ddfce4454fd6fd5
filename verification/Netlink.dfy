/** Netlink messages and attributes: aligned, self-describing records, written and walked. */
module Netlink {
  import opened Bytes

  const NLMSG_ERROR := 2
  const NLMSG_DONE := 3
  const HEADER := 16
  const RTATTR := 4

  /** (length + 3) & ~3. */
  function Aligned(length: nat): nat {
    (length + 3) / 4 * 4
  }

  datatype Message = Message(kind: nat, payload: bytes)
  datatype Attribute = Attribute(kind: nat, value: bytes)

  /** What struct.pack accepts; anything else is an error of the caller's. */
  predicate CanBuildMessage(kind: nat, flags: nat, body: bytes, sequence: nat) {
    IsU16(kind) && IsU16(flags) && IsU32(sequence) && IsU32(HEADER + |body|)
  }

  function MessageHeader(kind: nat, flags: nat, size: nat, sequence: nat): (r: bytes)
    ensures |r| == HEADER
  {
    U32Le(HEADER + size) + (U16Le(kind) + (U16Le(flags) + U32Le(sequence) + U32Le(0)))
  }

  function BuildMessage(kind: nat, flags: nat, body: bytes, sequence: nat): bytes
    requires CanBuildMessage(kind, flags, body, sequence)
  {
    MessageHeader(kind, flags, |body|, sequence) + body
  }

  predicate CanBuildAttribute(a: Attribute) {
    IsU16(a.kind) && IsU16(RTATTR + |a.value|)
  }

  function BuildAttribute(a: Attribute): (r: bytes)
    requires CanBuildAttribute(a)
    ensures |r| == Aligned(RTATTR + |a.value|)
  {
    var length := RTATTR + |a.value|;
    U16Le(length) + U16Le(a.kind) + a.value + Zeros(Aligned(length) - length)
  }

  function MessagesIn(data: bytes): seq<Message>
    decreases |data|
  {
    if |data| < HEADER then []
    else
      var length := ReadU32Le(data, 0);
      if length < HEADER || length > |data| then []
      else [Message(ReadU16Le(data, 4), data[HEADER..length])] + MessagesIn(Drop(data, Aligned(length)))
  }

  function AttributesIn(payload: bytes): seq<Attribute>
    decreases |payload|
  {
    if |payload| < RTATTR then []
    else
      var length := ReadU16Le(payload, 0);
      if length < RTATTR || length > |payload| then []
      else [Attribute(ReadU16Le(payload, 2), payload[RTATTR..length])] + AttributesIn(Drop(payload, Aligned(length)))
  }

  lemma MessageAt(data: bytes, position: nat, length: nat)
    requires position + HEADER <= |data| && length == ReadU32Le(data, position)
    ensures length < HEADER || position + length > |data| ==> MessagesIn(Drop(data, position)) == []
    ensures HEADER <= length <= |data| - position ==>
              MessagesIn(Drop(data, position))
              == [Message(ReadU16Le(data, position + 4), data[position + HEADER..position + length])]
                + MessagesIn(Drop(data, position + Aligned(length)))
  {
    var rest := data[position..];
    assert ReadU32Le(rest, 0) == length && ReadU16Le(rest, 4) == ReadU16Le(data, position + 4);
    if HEADER <= length <= |data| - position {
      assert rest[HEADER..length] == data[position + HEADER..position + length];
      assert Drop(rest, Aligned(length)) == Drop(data, position + Aligned(length));
    }
  }

  lemma AttributeAt(payload: bytes, position: nat, length: nat)
    requires position + RTATTR <= |payload| && length == ReadU16Le(payload, position)
    ensures length < RTATTR || position + length > |payload| ==> AttributesIn(Drop(payload, position)) == []
    ensures RTATTR <= length <= |payload| - position ==>
              AttributesIn(Drop(payload, position))
              == [Attribute(ReadU16Le(payload, position + 2), payload[position + RTATTR..position + length])]
                + AttributesIn(Drop(payload, position + Aligned(length)))
  {
    var rest := payload[position..];
    assert ReadU16Le(rest, 0) == length && ReadU16Le(rest, 2) == ReadU16Le(payload, position + 2);
    if RTATTR <= length <= |payload| - position {
      assert rest[RTATTR..length] == payload[position + RTATTR..position + length];
      assert Drop(rest, Aligned(length)) == Drop(payload, position + Aligned(length));
    }
  }

  lemma TooShort(data: bytes, position: nat)
    ensures position + HEADER > |data| ==> MessagesIn(Drop(data, position)) == []
    ensures position + RTATTR > |data| ==> AttributesIn(Drop(data, position)) == []
  {
  }

  /** The walk over a position in the whole chunk, as the source makes it. */
  method IterMessages(data: bytes) returns (messages: seq<Message>)
    ensures messages == MessagesIn(data)
  {
    hide MessagesIn, ReadU32Le, ReadU16Le;
    messages := [];
    var position := 0;
    assert Drop(data, 0) == data;
    while position + HEADER <= |data|
      invariant messages + MessagesIn(Drop(data, position)) == MessagesIn(data)
      decreases |data| - position
    {
      var length := ReadU32Le(data, position);
      MessageAt(data, position, length);
      if length < HEADER || position + length > |data| {
        return;
      }
      var message := Message(ReadU16Le(data, position + 4), data[position + HEADER..position + length]);
      Regrouped(messages, [message], MessagesIn(Drop(data, position + Aligned(length))));
      messages := messages + [message];
      position := position + Aligned(length);
    }
    TooShort(data, position);
  }

  method IterAttributes(payload: bytes, offset: nat) returns (attributes: seq<Attribute>)
    ensures attributes == AttributesIn(Drop(payload, offset))
  {
    hide AttributesIn, ReadU16Le;
    attributes := [];
    var position := offset;
    while position + RTATTR <= |payload|
      invariant attributes + AttributesIn(Drop(payload, position)) == AttributesIn(Drop(payload, offset))
      decreases |payload| - position
    {
      var length := ReadU16Le(payload, position);
      AttributeAt(payload, position, length);
      if length < RTATTR || position + length > |payload| {
        return;
      }
      var attribute := Attribute(ReadU16Le(payload, position + 2), payload[position + RTATTR..position + length]);
      Regrouped(attributes, [attribute], AttributesIn(Drop(payload, position + Aligned(length))));
      attributes := attributes + [attribute];
      position := position + Aligned(length);
    }
    TooShort(payload, position);
  }

  function ParseAck(data: bytes): Option<int> {
    AckIn(MessagesIn(data))
  }

  function AckIn(messages: seq<Message>): Option<int> {
    if |messages| == 0 then None
    else if messages[0].kind == NLMSG_ERROR && |messages[0].payload| >= 4 then Some(-ReadI32Le(messages[0].payload, 0))
    else AckIn(messages[1..])
  }

  // ---------------------------------------------------------------- walking what was built

  function BuildAttributes(attributes: seq<Attribute>): bytes
    requires forall i :: 0 <= i < |attributes| ==> CanBuildAttribute(attributes[i])
  {
    if |attributes| == 0 then [] else BuildAttribute(attributes[0]) + BuildAttributes(attributes[1..])
  }

  lemma PastAttribute(record: bytes, padding: bytes, after: bytes)
    requires |padding| == Aligned(|record|) - |record|
    ensures Drop(record + padding + after, Aligned(|record|)) == after
  {
    var all := record + padding + after;
    assert all[|record| + |padding|..] == after;
  }

  lemma ReadsAttributeHeader(header: bytes, rest: bytes)
    requires |header| == RTATTR
    ensures ReadU16Le(header + rest, 0) == ReadU16Le(header, 0) && ReadU16Le(header + rest, 2) == ReadU16Le(header, 2)
  {
    var payload := header + rest;
    assert payload[0] == header[0] && payload[1] == header[1] && payload[2] == header[2] && payload[3] == header[3];
  }

  /** Any four bytes that say the right length stand for the header. */
  lemma WalksAttribute(header: bytes, value: bytes, padding: bytes, after: bytes)
    requires |header| == RTATTR && ReadU16Le(header, 0) == |header + value|
    requires |padding| == Aligned(|header + value|) - |header + value|
    ensures AttributesIn(header + value + padding + after)
            == [Attribute(ReadU16Le(header, 2), value)] + AttributesIn(after)
  {
    hide ReadU16Le, Aligned;
    var payload := header + value + padding + after;
    assert payload == header + (value + padding + after);
    ReadsAttributeHeader(header, value + padding + after);
    PastAttribute(header + value, padding, after);
    assert payload[RTATTR..|header + value|] == value;
  }

  lemma WalksBuiltAttribute(a: Attribute, after: bytes)
    requires CanBuildAttribute(a)
    ensures AttributesIn(BuildAttribute(a) + after) == [a] + AttributesIn(after)
  {
    var length := RTATTR + |a.value|;
    U16LeReads(length, U16Le(a.kind));
    U16LeReads(a.kind, []);
    assert U16Le(a.kind) + [] == U16Le(a.kind);
    FieldReads(U16Le(length), U16Le(a.kind), []);
    WalksAttribute(U16Le(length) + U16Le(a.kind), a.value, Zeros(Aligned(length) - length), after);
  }

  /** Walking the concatenation of any attributes, behind a header of any size, gives back the same attributes. */
  lemma {:induction false} AttributesRoundTrip(before: bytes, attributes: seq<Attribute>)
    requires forall i :: 0 <= i < |attributes| ==> CanBuildAttribute(attributes[i])
    ensures AttributesIn(Drop(before + BuildAttributes(attributes), |before|)) == attributes
    decreases |attributes|
  {
    assert Drop(before + BuildAttributes(attributes), |before|) == BuildAttributes(attributes);
    if |attributes| == 0 {
    } else {
      var rest := BuildAttributes(attributes[1..]);
      WalksBuiltAttribute(attributes[0], rest);
      AttributesRoundTrip([], attributes[1..]);
      assert Drop([] + rest, 0) == rest;
    }
  }

  lemma AlignedIsNext(n: nat)
    ensures Aligned(n) % 4 == 0 && n <= Aligned(n) < n + 4
  {
  }

  lemma AlignedAfter(n: nat)
    ensures Aligned(HEADER + n) == HEADER + n + Padding(n)
    ensures Padding(n) < 4
    ensures Padding(n) == 0 <==> n % 4 == 0
  {
  }

  /** The bytes between the end of `n` bytes and the next aligned record. */
  function Padding(n: nat): nat {
    Aligned(n) - n
  }

  lemma PastMessage(before: bytes, size: nat, after: bytes)
    requires |before| == HEADER + size
    ensures Drop(before + after, Aligned(HEADER + size)) == Drop(after, Padding(size))
  {
    AlignedAfter(size);
    var n := Padding(size);
    assert Drop(before + after, |before| + n) == Drop(after, n);
  }

  lemma FirstMessage(header: bytes, body: bytes, after: bytes)
    requires |header| == HEADER && ReadU32Le(header, 0) == HEADER + |body|
    ensures var data := header + body + after;
            MessagesIn(data) == [Message(ReadU16Le(header, 4), body)] + MessagesIn(Drop(data, Aligned(HEADER + |body|)))
  {
    var data, length := header + body + after, HEADER + |body|;
    assert data[0] == header[0] && data[1] == header[1] && data[2] == header[2] && data[3] == header[3]
      && data[4] == header[4] && data[5] == header[5];
    assert ReadU32Le(data, 0) == ReadU32Le(header, 0) && ReadU16Le(data, 4) == ReadU16Le(header, 4);
    assert data[HEADER..length] == body;
    hide ReadU32Le, ReadU16Le, Drop, Aligned;
  }

  lemma WalksMessage(header: bytes, body: bytes, after: bytes)
    requires |header| == HEADER && ReadU32Le(header, 0) == HEADER + |body|
    ensures MessagesIn(header + body + after)
            == [Message(ReadU16Le(header, 4), body)] + MessagesIn(Drop(after, Padding(|body|)))
  {
    FirstMessage(header, body, after);
    PastMessage(header + body, |body|, after);
  }

  /** A built message, and what is read after it: whatever lies past its alignment. */
  lemma WalksBuiltMessage(kind: nat, flags: nat, body: bytes, sequence: nat, after: bytes)
    requires CanBuildMessage(kind, flags, body, sequence)
    ensures |BuildMessage(kind, flags, body, sequence)| == HEADER + |body|
    ensures MessagesIn(BuildMessage(kind, flags, body, sequence) + after)
            == [Message(kind, body)] + MessagesIn(Drop(after, Padding(|body|)))
  {
    HeaderSays(kind, flags, |body|, sequence);
    WalksMessage(MessageHeader(kind, flags, |body|, sequence), body, after);
  }

  lemma HeaderSays(kind: nat, flags: nat, size: nat, sequence: nat)
    requires IsU16(kind) && IsU32(HEADER + size)
    ensures var header := MessageHeader(kind, flags, size, sequence);
            && ReadU32Le(header, 0) == HEADER + size && ReadU16Le(header, 4) == kind
            && header[6..16] == U16Le(flags) + U32Le(sequence) + [0, 0, 0, 0]
  {
    var length, tail := U32Le(HEADER + size), U16Le(flags) + U32Le(sequence) + U32Le(0);
    U32LeReads(HEADER + size, U16Le(kind) + tail);
    FieldReads(length, U16Le(kind), tail);
    U16LeReads(kind, []);
    assert U16Le(kind) + [] == U16Le(kind);
  }

  lemma ReadsAlone(m: Message, sequence: nat)
    requires CanBuildMessage(m.kind, 0, m.payload, sequence)
    ensures |BuildMessage(m.kind, 0, m.payload, sequence)| == HEADER + |m.payload|
    ensures MessagesIn(BuildMessage(m.kind, 0, m.payload, sequence)) == [m]
  {
    WalksBuiltMessage(m.kind, 0, m.payload, sequence, []);
    assert BuildMessage(m.kind, 0, m.payload, sequence) + [] == BuildMessage(m.kind, 0, m.payload, sequence);
    assert MessagesIn(Drop([], Padding(|m.payload|))) == [];
  }

  lemma MisreadFromInside(second: bytes, b: Message, skipped: nat)
    requires |second| == HEADER + |b.payload| && MessagesIn(second) == [b]
    ensures MessagesIn(Drop(second, skipped)) == [b] <==> skipped == 0
  {
    assert Drop(second, 0) == second;
    PayloadFits(Drop(second, skipped));
  }

  /** Two built messages sent back to back are both read if and only if the first body fills its alignment. */
  lemma MessagesNeedAlignment(a: Message, b: Message, sequence: nat)
    requires CanBuildMessage(a.kind, 0, a.payload, sequence) && CanBuildMessage(b.kind, 0, b.payload, sequence)
    ensures MessagesIn(BuildMessage(a.kind, 0, a.payload, sequence) + BuildMessage(b.kind, 0, b.payload, sequence))
            == [a, b]
       <==> |a.payload| % 4 == 0
  {
    var second := BuildMessage(b.kind, 0, b.payload, sequence);
    AlignedAfter(|a.payload|);
    WalksBuiltMessage(a.kind, 0, a.payload, sequence, second);
    ReadsAlone(b, sequence);
    MisreadFromInside(second, b, Padding(|a.payload|));
    AfterOneMessage(a, b, Drop(second, Padding(|a.payload|)));
  }

  lemma AfterOneMessage(a: Message, b: Message, rest: bytes)
    ensures [a] + MessagesIn(rest) == [a, b] <==> MessagesIn(rest) == [b]
  {
    assert ([a] + MessagesIn(rest))[1..] == MessagesIn(rest);
    assert [a, b][1..] == [b];
  }

  lemma PayloadFits(data: bytes)
    ensures |MessagesIn(data)| > 0 ==> HEADER + |MessagesIn(data)[0].payload| <= |data|
  {
  }

  // ---------------------------------------------------------------- chunks as the kernel fills them

  /** A message in a chunk: its header, taken as it comes and read for length and type alone, its body, its padding. */
  datatype Framed = Framed(header: bytes, body: bytes, padding: bytes)

  predicate ValidFramed(f: Framed) {
    |f.header| == HEADER && ReadU32Le(f.header, 0) == HEADER + |f.body| && |f.padding| == Padding(|f.body|)
  }

  function Pack(framed: seq<Framed>): bytes {
    if |framed| == 0 then [] else framed[0].header + framed[0].body + framed[0].padding + Pack(framed[1..])
  }

  function MessageOf(f: Framed): Message
    requires ValidFramed(f)
  {
    Message(ReadU16Le(f.header, 4), f.body)
  }

  function Unframed(framed: seq<Framed>): seq<Message>
    requires forall i :: 0 <= i < |framed| ==> ValidFramed(framed[i])
  {
    if |framed| == 0 then [] else [MessageOf(framed[0])] + Unframed(framed[1..])
  }

  lemma WalksOne(f: Framed, after: bytes)
    requires ValidFramed(f)
    ensures MessagesIn(f.header + f.body + f.padding + after) == [MessageOf(f)] + MessagesIn(after)
  {
    WalksMessage(f.header, f.body, f.padding + after);
    Regrouped(f.header + f.body, f.padding, after);
    assert Drop(f.padding + after, |f.padding|) == after;
  }

  /** A chunk of messages under any headers is walked message by message, and the walk goes on with what follows. */
  lemma {:induction false} WalksChunk(framed: seq<Framed>, after: bytes)
    requires forall i :: 0 <= i < |framed| ==> ValidFramed(framed[i])
    ensures MessagesIn(Pack(framed) + after) == Unframed(framed) + MessagesIn(after)
  {
    hide MessagesIn, ValidFramed;
    if |framed| == 0 {
      assert [] + after == after;
    } else {
      var rest := Pack(framed[1..]);
      WalksOne(framed[0], rest + after);
      Regrouped(framed[0].header + framed[0].body + framed[0].padding, rest, after);
      WalksChunk(framed[1..], after);
      Regrouped([MessageOf(framed[0])], Unframed(framed[1..]), MessagesIn(after));
    }
  }

  predicate IsAck(m: Message) {
    m.kind == 2 && |m.payload| >= 4
  }

  lemma {:induction false} FirstAckDecides(messages: seq<Message>, rest: seq<Message>)
    requires forall i :: 0 <= i < |messages| ==> !IsAck(messages[i])
    ensures AckIn(messages + rest) == AckIn(rest)
  {
    if |messages| == 0 {
      assert [] + rest == rest;
    } else {
      assert (messages + rest)[0] == messages[0];
      assert (messages + rest)[1..] == messages[1..] + rest;
      FirstAckDecides(messages[1..], rest);
    }
  }

  lemma {:induction false} NoAcksAmong(framed: seq<Framed>)
    requires forall i :: 0 <= i < |framed| ==> ValidFramed(framed[i]) && !IsAck(MessageOf(framed[i]))
    ensures forall i :: 0 <= i < |Unframed(framed)| ==> !IsAck(Unframed(framed)[i])
  {
    if |framed| == 0 {
    } else {
      NoAcksAmong(framed[1..]);
    }
  }

  /**
   * The errno the kernel packs into its acknowledgement is the one reported, under any header, whatever other messages
   * come first and whatever follows; a chunk without one reports nothing.
   */
  lemma {:induction false} AckRoundTrip(earlier: seq<Framed>, header: bytes, errno: int, rest: bytes, after: bytes)
    requires forall i :: 0 <= i < |earlier| ==> ValidFramed(earlier[i]) && !IsAck(MessageOf(earlier[i]))
    requires 0 <= errno < 0x8000_0000
    requires |header| == HEADER && ReadU16Le(header, 4) == 2 && ReadU32Le(header, 0) == HEADER + 4 + |rest|
    ensures ParseAck(Pack(earlier) + (header + (U32Le(-errno) + rest) + after)) == Some(errno)
    ensures ParseAck(Pack(earlier)) == None
  {
    var body, ack := U32Le(-errno) + rest, header + (U32Le(-errno) + rest) + after;
    assert ParseAck(Pack(earlier) + ack) == AckIn(MessagesIn(Pack(earlier) + ack));
    assert ParseAck(Pack(earlier)) == AckIn(MessagesIn(Pack(earlier)));
    assert AckIn([]) == None && MessagesIn([]) == [];
    hide *;
    NoAcksAmong(earlier);
    WalksChunk(earlier, ack);
    WalksMessage(header, body, after);
    FirstAckDecides(Unframed(earlier), MessagesIn(ack));
    AckReads(errno, rest, MessagesIn(Drop(after, Padding(|body|))));
    WalksChunk(earlier, []);
    FirstAckDecides(Unframed(earlier), []);
    assert Pack(earlier) + [] == Pack(earlier) && Unframed(earlier) + [] == Unframed(earlier);
  }

  lemma AckReads(errno: int, rest: bytes, more: seq<Message>)
    requires 0 <= errno < 0x8000_0000
    ensures AckIn([Message(NLMSG_ERROR, U32Le(-errno) + rest)] + more) == Some(errno)
  {
    U32LeReads(-errno, rest);
  }
}
