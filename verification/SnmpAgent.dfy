/** What a conversation reports of an agent that answers it. */
module SnmpAgent {
  import opened Bytes
  import opened SnmpBer
  import opened Snmp
  import opened SnmpTheorems
  import SnmpBerTheorems
  import SnmpRequests
  import Oid

  /** The values an agent has; one it lacks has no meaning here. */
  datatype Agent = Agent(has: set<SystemValue>, description: bytes, objectId: string, ticks: nat, name: bytes)

  predicate Valid(a: Agent) {
    Oid.EncodeOid(a.objectId).Ok? && Oid.IsCanonical(a.objectId) && IsU32(a.ticks)
  }

  /** An uptime goes out as the shortest signed integer, or as four unsigned octets. */
  predicate IsTicks(body: bytes, ticks: nat) {
    body == IntegerBody(ticks) || body == ToBytes(ticks, 4)
  }

  predicate IsBodyOf(body: bytes, kind: SystemValue, a: Agent)
    requires Valid(a)
  {
    match kind
    case Description => body == a.description
    case ObjectId => body == Oid.EncodeOid(a.objectId).value
    case Uptime => IsTicks(body, a.ticks)
    case Name => body == a.name
  }

  /** The binding an agent puts beside a name: its value, or SNMPv2c's exception. */
  predicate IsBindingOf(bind: VarBind, kind: SystemValue, a: Agent)
    requires Valid(a)
  {
    && bind.oid == OidOf(kind)
    && if kind in a.has then bind.tag == TypeOf(kind) && IsBodyOf(bind.value, kind, a) else 0x80 <= bind.tag <= 0x82
  }

  /** The first value asked for that the agent lacks, or the length when it has them all. */
  function FirstMissing(wanted: seq<SystemValue>, has: set<SystemValue>): (n: nat)
    ensures n <= |wanted|
    ensures n < |wanted| ==> wanted[n] !in has
    ensures n == |wanted| ==> forall k :: k in wanted ==> k in has
  {
    if |wanted| == 0 || wanted[0] !in has then 0 else 1 + FirstMissing(wanted[1..], has)
  }

  predicate Refuses(a: Agent, wanted: seq<SystemValue>, version: Version) {
    version.V1? && FirstMissing(wanted, a.has) < |wanted|
  }

  /** A correct reply: SNMPv1 answers noSuchName at the first value lacked, and otherwise everything is bound. */
  predicate IsReply(reply: SnmpMessage, a: Agent, wanted: seq<SystemValue>, id: int, version: Version)
    requires Valid(a)
  {
    && reply.version == (if version.V1? then 0 else 1) && reply.pduTag == 0xA2 && reply.requestId == id
    && if Refuses(a, wanted, version) then reply.errorStatus == 2 && reply.errorIndex == FirstMissing(wanted, a.has) + 1
       else
         reply.errorStatus == 0 && Binds(reply, a, wanted)
  }

  /** The arrivals begin with the agent's replies to each request the conversation comes to make. */
  predicate Answers(arrivals: seq<Arrival>, a: Agent, wanted: seq<SystemValue>, ids: seq<int>, version: Version)
    requires Valid(a) && |ids| >= |wanted|
    decreases |wanted|
  {
    |wanted| == 0
    || (&& |arrivals| > 0 && arrivals[0].Datagram?
        && ParseMessage(arrivals[0].data).Ok?
        && IsReply(ParseMessage(arrivals[0].data).value, a, wanted, ids[0], version)
        && (Refuses(a, wanted, version) ==>
              Answers(arrivals[1..], a, Without(wanted, wanted[FirstMissing(wanted, a.has)]), ids[1..], version)))
  }

  /** The record that says exactly what the agent has. */
  function Report(a: Agent): SnmpSystem {
    SnmpSystem(Answered,
               if Uptime in a.has then Some(a.ticks as real / 100.0) else None,
               if Name in a.has then Some(a.name) else None,
               if Description in a.has then Some(a.description) else None,
               if ObjectId in a.has then Some(a.objectId) else None,
               None)
  }

  // ---------------------------------------------------------------- one value

  lemma {:induction false} SignedWhenPositive(body: bytes)
    requires |body| > 0 && SignedBigEndian(body) >= 0
    ensures BigEndian(body) == SignedBigEndian(body)
  {
    if |body| == 1 {
      assert body[..0] == [];
    } else {
      SignedWhenPositive(body[..|body| - 1]);
    }
  }

  lemma {:induction false} TopBitIsTheSign(body: bytes)
    requires |body| > 0
    ensures SignedBigEndian(body) < 0 <==> body[0] >= 128
  {
    if |body| == 1 {
    } else {
      TopBitIsTheSign(body[..|body| - 1]);
    }
  }

  /**
   * An uptime is accepted if and only if it has 1 to 5 octets, is not negative and fits 32 bits; four octets never
   * are negative.
   */
  lemma TicksExactly(body: bytes)
    ensures Ticks(body).Ok? <==> 1 <= |body| <= 5 && (|body| == 4 || body[0] < 128) && BigEndian(body) < 0x1_0000_0000
    ensures Ticks(body).Ok? ==> Ticks(body).value == BigEndian(body) as real / 100.0
  {
    if 1 <= |body| <= 5 {
      TopBitIsTheSign(body);
      if SignedBigEndian(body) >= 0 {
        SignedWhenPositive(body);
      }
    }
    hide SignedBigEndian, BigEndian;
  }

  lemma FourOctetTicks(ticks: nat)
    requires IsU32(ticks)
    ensures BigEndian(ToBytes(ticks, 4)) == ticks
  {
    assert Pow256(4) == 0x1_0000_0000;
    BigEndianOfToBytes(ticks, 4);
  }

  lemma ShortestTicks(ticks: nat)
    requires IsU32(ticks)
    ensures 1 <= |IntegerBody(ticks)| <= 5
    ensures SignedBigEndian(IntegerBody(ticks)) == BigEndian(IntegerBody(ticks)) == ticks
  {
    SnmpBerTheorems.FiveOctets(ticks);
    SnmpBerTheorems.IntegerRoundTrip(ticks);
    SignedWhenPositive(IntegerBody(ticks));
  }

  /** Both spellings of an uptime read as the same number of seconds. */
  lemma TicksRead(body: bytes, ticks: nat)
    requires IsU32(ticks) && IsTicks(body, ticks)
    ensures Ticks(body) == Ok(ticks as real / 100.0)
  {
    ShortestTicks(ticks);
    FourOctetTicks(ticks);
    hide IntegerBody, SignedBigEndian, BigEndian, ToBytes;
  }

  /** A reply that binds each of `wanted` as the agent must. */
  predicate Binds(reply: SnmpMessage, a: Agent, wanted: seq<SystemValue>)
    requires Valid(a)
  {
    |reply.bindings| == |wanted| && forall i :: 0 <= i < |wanted| ==> IsBindingOf(reply.bindings[i], wanted[i], a)
  }

  lemma BodyRead(reply: SnmpMessage, a: Agent, wanted: seq<SystemValue>, version: Version, kind: SystemValue)
    requires Valid(a) && !Refuses(a, wanted, version) && Binds(reply, a, wanted)
    ensures var body := Body(kind, Zip(wanted, reply.bindings), version);
            && body.Ok?
            && (body.value.Some? <==> kind in wanted && kind in a.has)
            && (body.value.Some? ==> IsBodyOf(body.value.value, kind, a))
  {
    ZipFinds(wanted, reply.bindings, kind);
    if kind in wanted {
      var bind := Zip(wanted, reply.bindings)[kind];
      var i :| 0 <= i < |wanted| && wanted[i] == kind && reply.bindings[i] == bind;
      assert IsBindingOf(reply.bindings[i], wanted[i], a) && (version.V1? ==> kind in a.has);
      hide *;
      BoundBodyRead(Zip(wanted, reply.bindings), a, version, kind);
    }
  }

  lemma BoundBodyRead(bindings: map<SystemValue, VarBind>, a: Agent, version: Version, kind: SystemValue)
    requires Valid(a) && (version.V1? ==> kind in a.has)
    requires kind in bindings && IsBindingOf(bindings[kind], kind, a)
    ensures var body := Body(kind, bindings, version);
            && body.Ok?
            && (body.value.Some? <==> kind in a.has)
            && (body.value.Some? ==> IsBodyOf(body.value.value, kind, a))
  {
    hide OidOf, IsBodyOf;
  }

  lemma IsChecked(reply: SnmpMessage, a: Agent, wanted: seq<SystemValue>, version: Version)
    requires Valid(a) && Binds(reply, a, wanted)
    requires reply.version == WireNumber(version) && reply.pduTag == GET_RESPONSE && reply.errorStatus == 0
    ensures Check(reply, wanted, version) == None
  {
    hide OidOf, IsBodyOf;
    assert forall i :: 0 <= i < |wanted| ==> IsBindingOf(reply.bindings[i], wanted[i], a);
  }

  lemma Decodes(reply: SnmpMessage, wanted: seq<SystemValue>, version: Version, v: Values)
    requires Check(reply, wanted, version) == None
    requires var bindings := Zip(wanted, reply.bindings);
             && Body(Description, bindings, version) == Ok(v.description)
             && Body(Name, bindings, version) == Ok(v.name)
             && Body(ObjectId, bindings, version).Ok?
                   && ObjectIdOf(Body(ObjectId, bindings, version).value) == Ok(v.objectId)
             && Body(Uptime, bindings, version).Ok?
                   && UptimeOf(Body(Uptime, bindings, version).value) == Ok(v.uptimeSeconds)
    ensures FromReply(reply, wanted, version)
            == SnmpSystem(Answered, v.uptimeSeconds, v.name, v.description, v.objectId, None)
  {
    hide Zip, Body, ObjectIdOf, UptimeOf;
    assert |reply.bindings| == |wanted|;
  }

  /** A reply that binds everything asked for, when nothing the agent has was left out, is reported in full. */
  lemma ReplyIsReported(reply: SnmpMessage, a: Agent, wanted: seq<SystemValue>, id: int, version: Version)
    requires Valid(a) && !Refuses(a, wanted, version) && IsReply(reply, a, wanted, id, version)
    requires forall k :: k in a.has ==> k in wanted
    ensures FromReply(reply, wanted, version) == Report(a)
  {
    assert Binds(reply, a, wanted);
    IsChecked(reply, a, wanted, version);
    var r := Report(a);
    assert r == SnmpSystem(Answered, r.uptimeSeconds, r.name, r.description, r.objectId, None);
    hide *;
    TextsRead(reply, a, wanted, version);
    NumbersRead(reply, a, wanted, version);
    Decodes(reply, wanted, version, Values(r.description, r.objectId, r.uptimeSeconds, r.name));
  }

  lemma TextsRead(reply: SnmpMessage, a: Agent, wanted: seq<SystemValue>, version: Version)
    requires Valid(a) && !Refuses(a, wanted, version) && Binds(reply, a, wanted)
    requires forall k :: k in a.has ==> k in wanted
    ensures Body(Description, Zip(wanted, reply.bindings), version) == Ok(Report(a).description)
    ensures Body(Name, Zip(wanted, reply.bindings), version) == Ok(Report(a).name)
  {
    BodyRead(reply, a, wanted, version, Description);
    BodyRead(reply, a, wanted, version, Name);
    hide Zip, Body, Binds, Refuses, Valid;
  }

  lemma NumbersRead(reply: SnmpMessage, a: Agent, wanted: seq<SystemValue>, version: Version)
    requires Valid(a) && !Refuses(a, wanted, version) && Binds(reply, a, wanted)
    requires forall k :: k in a.has ==> k in wanted
    ensures var bindings := Zip(wanted, reply.bindings);
            && Body(ObjectId, bindings, version).Ok?
                  && ObjectIdOf(Body(ObjectId, bindings, version).value) == Ok(Report(a).objectId)
            && Body(Uptime, bindings, version).Ok?
                  && UptimeOf(Body(Uptime, bindings, version).value) == Ok(Report(a).uptimeSeconds)
  {
    var r := Report(a);
    assert r.objectId == if ObjectId in a.has then Some(a.objectId) else None;
    assert r.uptimeSeconds == if Uptime in a.has then Some(a.ticks as real / 100.0) else None;
    hide *;
    var bindings := Zip(wanted, reply.bindings);
    BodyRead(reply, a, wanted, version, ObjectId);
    BodyRead(reply, a, wanted, version, Uptime);
    ValueRead(a, Body(ObjectId, bindings, version).value, Body(Uptime, bindings, version).value);
  }

  lemma ValueRead(a: Agent, objectId: Option<bytes>, uptime: Option<bytes>)
    requires Valid(a)
    ensures objectId.None? ==> ObjectIdOf(objectId) == Ok(None)
    ensures objectId.Some? && IsBodyOf(objectId.value, ObjectId, a) ==> ObjectIdOf(objectId) == Ok(Some(a.objectId))
    ensures uptime.None? ==> UptimeOf(uptime) == Ok(None)
    ensures uptime.Some? && IsBodyOf(uptime.value, Uptime, a) ==> UptimeOf(uptime) == Ok(Some(a.ticks as real / 100.0))
  {
    hide Ticks, Oid.EncodeOid, Oid.DecodeOid, IsTicks, Oid.IsCanonical;
    Oid.EncodeThenDecode(a.objectId);
    if uptime.Some? && IsTicks(uptime.value, a.ticks) {
      TicksRead(uptime.value, a.ticks);
    }
  }

  // ---------------------------------------------------------------- the whole conversation

  /**
   * A conversation with an agent that answers reports exactly the values the agent has: in one request under SNMPv2c,
   * and under SNMPv1 after one more for each value it turns out to lack.
   */
  lemma {:induction false} AgentIsReported(a: Agent, wanted: seq<SystemValue>, arrivals: seq<Arrival>, ids: seq<int>,
                                           version: Version)
    requires Valid(a) && |ids| >= |wanted| && Answers(arrivals, a, wanted, ids, version)
    requires forall k :: k in a.has ==> k in wanted
    ensures ConverseFrom(wanted, arrivals, ids, version).result == Report(a)
    decreases |wanted|
  {
    if |wanted| == 0 {
    } else {
      var reply := ParseMessage(arrivals[0].data).value;
      var (heard, rest) := ListenFrom(arrivals, ids[0], None);
      assert heard == Reply(reply) && rest == arrivals[1..];
      RefusalNames(reply, a, wanted, ids[0], version);
      if Refuses(a, wanted, version) {
        AgentIsReported(a, Without(wanted, wanted[FirstMissing(wanted, a.has)]), rest, ids[1..], version);
      } else {
        ReplyIsReported(reply, a, wanted, ids[0], version);
      }
    }
  }

  /** Nor does it matter what else arrives, or when: what the listeners set aside changes nothing it reports. */
  lemma AgentIsHeardThroughNoise(a: Agent, arrivals: seq<Arrival>, ids: seq<int>, version: Version)
    requires Valid(a) && |ids| >= |ALL_VALUES|
    requires Answers(Heeded(ALL_VALUES, arrivals, ids, version), a, ALL_VALUES, ids, version)
    ensures ConverseFrom(ALL_VALUES, arrivals, ids, version).result == Report(a)
  {
    AllAreAsked(a.has);
    AgentIsReported(a, ALL_VALUES, Heeded(ALL_VALUES, arrivals, ids, version), ids, version);
    NoiseChangesNothing(ALL_VALUES, arrivals, ids, version);
  }

  /** Everything that arrives, arriving twice. */
  function Doubled(arrivals: seq<Arrival>): seq<Arrival> {
    if |arrivals| == 0 then [] else [arrivals[0], arrivals[0]] + Doubled(arrivals[1..])
  }

  predicate Distinct(ids: seq<int>) {
    forall i, j :: 0 <= i < j < |ids| ==> ids[i] != ids[j]
  }

  lemma HeedsFirst(wanted: seq<SystemValue>, first: Arrival, rest: seq<Arrival>, ids: seq<int>, version: Version)
    requires |ids| >= |wanted| > 0 && first.Datagram? && SetAside(first.data, ids[0]).None?
    ensures var unknown := UnknownInV1(ParseMessage(first.data).value, wanted, version);
            Heeded(wanted, [first] + rest, ids, version)
            == [first] + if unknown.Some? then Heeded(Without(wanted, unknown.value), rest, ids[1..], version) else rest
  {
    hide SetAside, UnknownInV1, Without;
    assert ([first] + rest)[1..] == rest;
  }

  lemma DropsFirst(wanted: seq<SystemValue>, first: Arrival, rest: seq<Arrival>, ids: seq<int>, version: Version)
    requires |ids| >= |wanted| > 0 && first.Datagram? && SetAside(first.data, ids[0]).Some?
    ensures Heeded(wanted, [first] + rest, ids, version) == Heeded(wanted, rest, ids, version)
  {
    hide SetAside;
    assert ([first] + rest)[1..] == rest;
  }

  lemma AnswersFirst(first: Arrival, rest: seq<Arrival>, a: Agent, wanted: seq<SystemValue>, ids: seq<int>,
                     version: Version)
    requires Valid(a) && |ids| >= |wanted| > 0 && first.Datagram? && ParseMessage(first.data).Ok?
    requires IsReply(ParseMessage(first.data).value, a, wanted, ids[0], version)
    requires Refuses(a, wanted, version) ==>
               Answers(rest, a, Without(wanted, wanted[FirstMissing(wanted, a.has)]), ids[1..], version)
    ensures Answers([first] + rest, a, wanted, ids, version)
  {
    hide IsReply, Refuses;
    assert ([first] + rest)[1..] == rest;
  }

  /** The value a refusing reply names is the first one lacked. */
  lemma RefusalNames(reply: SnmpMessage, a: Agent, wanted: seq<SystemValue>, id: int, version: Version)
    requires Valid(a) && IsReply(reply, a, wanted, id, version)
    ensures UnknownInV1(reply, wanted, version)
         == if Refuses(a, wanted, version) then Some(wanted[FirstMissing(wanted, a.has)]) else None
  {
    hide Binds;
  }

  /** A second copy of a reply answers a request no longer asked, and is set aside. */
  lemma {:induction false} DoublesAreSetAside(a: Agent, wanted: seq<SystemValue>, arrivals: seq<Arrival>, ids: seq<int>,
                                              version: Version)
    requires Valid(a) && |ids| >= |wanted| && Distinct(ids) && Answers(arrivals, a, wanted, ids, version)
    ensures Answers(Heeded(wanted, Doubled(arrivals), ids, version), a, wanted, ids, version)
    decreases |wanted|
  {
    if |wanted| == 0 {
    } else {
      var first, reply, more := arrivals[0], ParseMessage(arrivals[0].data).value, Doubled(arrivals[1..]);
      assert Doubled(arrivals) == [first] + ([first] + more);
      assert SetAside(first.data, ids[0]).None? && reply.requestId == ids[0];
      RefusalNames(reply, a, wanted, ids[0], version);
      hide IsReply, Refuses, UnknownInV1, Heeded, ParseMessage, Doubled;
      HeedsFirst(wanted, first, [first] + more, ids, version);
      if Refuses(a, wanted, version) {
        var fewer := Without(wanted, wanted[FirstMissing(wanted, a.has)]);
        DoublesAreSetAside(a, fewer, arrivals[1..], ids[1..], version);
        if |fewer| > 0 {
          assert ids[1] != ids[0];
          DropsFirst(fewer, first, more, ids[1..], version);
        }
        AnswersFirst(first, Heeded(fewer, [first] + more, ids[1..], version), a, wanted, ids, version);
      } else {
        AnswersFirst(first, [first] + more, a, wanted, ids, version);
      }
    }
  }

  /** An agent, or a network, that repeats every reply is reported just the same. */
  lemma RepeatedRepliesAreReported(a: Agent, arrivals: seq<Arrival>, ids: seq<int>, version: Version)
    requires Valid(a) && |ids| >= |ALL_VALUES| && Distinct(ids) && Answers(arrivals, a, ALL_VALUES, ids, version)
    ensures ConverseFrom(ALL_VALUES, Doubled(arrivals), ids, version).result == Report(a)
  {
    DoublesAreSetAside(a, ALL_VALUES, arrivals, ids, version);
    AgentIsHeardThroughNoise(a, Doubled(arrivals), ids, version);
  }

  lemma AllAreAsked(has: set<SystemValue>)
    ensures forall k :: k in has ==> k in ALL_VALUES
  {
    forall k: SystemValue ensures k in ALL_VALUES {
      match k {
        case Description => assert ALL_VALUES[0] == k;
        case ObjectId => assert ALL_VALUES[1] == k;
        case Uptime => assert ALL_VALUES[2] == k;
        case Name => assert ALL_VALUES[3] == k;
      }
    }
  }

  // ---------------------------------------------------------------- from the agent's own bytes

  /** Values that fit a datagram. */
  predicate IsSmall(a: Agent) {
    && Valid(a)
    && |a.description| <= SnmpRequests.MAX_DATAGRAM
    && |a.name| <= SnmpRequests.MAX_DATAGRAM
    && |Oid.EncodeOid(a.objectId).value| <= SnmpRequests.MAX_DATAGRAM
  }

  function Value(kind: SystemValue, a: Agent): bytes
    requires Valid(a)
  {
    match kind
    case Description => a.description
    case ObjectId => Oid.EncodeOid(a.objectId).value
    case Uptime => ToBytes(a.ticks, 4)
    case Name => a.name
  }

  /** noSuchObject stands for a value SNMPv2c lacks. */
  function Binding(kind: SystemValue, a: Agent): VarBind
    requires Valid(a)
  {
    if kind in a.has then VarBind(OidOf(kind), TypeOf(kind), Value(kind, a)) else VarBind(OidOf(kind), 0x80, [])
  }

  function Response(a: Agent, wanted: seq<SystemValue>, id: int, version: Version, community: bytes): SnmpMessage
    requires Valid(a)
  {
    var refuses := Refuses(a, wanted, version);
    SnmpMessage(WireNumber(version), community, GET_RESPONSE, id,
                if refuses then 2 else 0, if refuses then FirstMissing(wanted, a.has) + 1 else 0,
                seq(|wanted|, i requires 0 <= i < |wanted| => if refuses then VarBind(OidOf(wanted[i]), NULL, [])
                else Binding(wanted[i], a)))
  }

  lemma ResponseIsSmall(a: Agent, wanted: seq<SystemValue>, id: int, version: Version, community: bytes)
    requires IsSmall(a) && |wanted| <= 4 && 1 <= id < 0x8000_0000 && |community| <= SnmpRequests.MAX_DATAGRAM
    ensures SnmpRequests.IsSmallMessage(Response(a, wanted, id, version, community))
  {
    hide OidOf, Oid.EncodeOid, Oid.IsCanonical;
    var m := Response(a, wanted, id, version, community);
    forall i | 0 <= i < |m.bindings| ensures SnmpRequests.IsSmall(m.bindings[i]) {
      assert m.bindings[i].oid == OidOf(wanted[i]);
    }
    hide SnmpRequests.IsSmall;
  }

  lemma ResponseIsReply(a: Agent, wanted: seq<SystemValue>, id: int, version: Version, community: bytes)
    requires Valid(a)
    ensures IsReply(Response(a, wanted, id, version, community), a, wanted, id, version)
  {
    hide OidOf, Oid.EncodeOid, Oid.IsCanonical, IntegerBody;
  }

  /** The datagrams an agent sends over a conversation, one for each request it is asked. */
  function Responses(a: Agent, wanted: seq<SystemValue>, ids: seq<int>, version: Version,
                     community: bytes): seq<Arrival>
    requires Valid(a) && |ids| >= |wanted|
    decreases |wanted|
  {
    if |wanted| == 0 then []
    else
      var encoded := EncodeMessage(Response(a, wanted, ids[0], version, community));
      [Datagram(if encoded.Ok? then encoded.value else [])]
      + if Refuses(a, wanted, version)
        then Responses(a, Without(wanted, wanted[FirstMissing(wanted, a.has)]), ids[1..], version, community) else []
  }

  lemma {:induction false} ResponsesAnswer(a: Agent, wanted: seq<SystemValue>, ids: seq<int>, version: Version,
                                           community: bytes)
    requires IsSmall(a) && |wanted| <= 4 && |ids| >= |wanted| && |community| <= SnmpRequests.MAX_DATAGRAM
    requires forall i :: 0 <= i < |ids| ==> 1 <= ids[i] < 0x8000_0000
    ensures Answers(Responses(a, wanted, ids, version, community), a, wanted, ids, version)
    decreases |wanted|
  {
    if |wanted| == 0 {
    } else {
      var m := Response(a, wanted, ids[0], version, community);
      ResponseIsSmall(a, wanted, ids[0], version, community);
      ResponseIsReply(a, wanted, ids[0], version, community);
      SnmpRequests.SmallMessageIsUnderstood(m);
      var all := Responses(a, wanted, ids, version, community);
      if Refuses(a, wanted, version) {
        var fewer := Without(wanted, wanted[FirstMissing(wanted, a.has)]);
        ResponsesAnswer(a, fewer, ids[1..], version, community);
        assert all[1..] == Responses(a, fewer, ids[1..], version, community);
      }
      hide IsReply, Response, EncodeMessage, ParseMessage, SnmpRequests.IsSmallMessage;
    }
  }

  /**
   * Encoder, parser and conversation together: what an agent encodes is what the conversation reports, whichever
   * values it has, under either version and any community and request ids.
   */
  lemma AgentBytesAreReported(a: Agent, ids: seq<int>, version: Version, community: bytes)
    requires IsSmall(a) && |ids| >= |ALL_VALUES| && |community| <= SnmpRequests.MAX_DATAGRAM
    requires forall i :: 0 <= i < |ids| ==> 1 <= ids[i] < 0x8000_0000
    ensures ConverseFrom(ALL_VALUES, Responses(a, ALL_VALUES, ids, version, community), ids, version).result
            == Report(a)
  {
    AllAreAsked(a.has);
    ResponsesAnswer(a, ALL_VALUES, ids, version, community);
    AgentIsReported(a, ALL_VALUES, Responses(a, ALL_VALUES, ids, version, community), ids, version);
  }
}
