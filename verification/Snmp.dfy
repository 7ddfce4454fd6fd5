/**
 * One SNMP read of the system group: listening, deciding what a reply says, and asking again without what an agent
 * lacks.
 */
module Snmp {
  import opened Bytes
  import opened SnmpBer
  import Oid

  datatype SystemValue = Description | ObjectId | Uptime | Name

  const ALL_VALUES: seq<SystemValue> := [Description, ObjectId, Uptime, Name]

  function OidOf(kind: SystemValue): string {
    match kind
    case Description => "1.3.6.1.2.1.1.1.0"
    case ObjectId => "1.3.6.1.2.1.1.2.0"
    case Uptime => "1.3.6.1.2.1.1.3.0"
    case Name => "1.3.6.1.2.1.1.5.0"
  }

  function TypeOf(kind: SystemValue): byte {
    match kind
    case ObjectId => OBJECT_IDENTIFIER
    case Uptime => TIMETICKS
    case _ => OCTET_STRING
  }

  datatype Version = V1 | V2c

  function WireNumber(version: Version): int {
    if version.V1? then 0 else 1
  }

  function GetRequest(version: Version, community: bytes, requestId: int, wanted: seq<SystemValue>): SnmpMessage {
    SnmpMessage(WireNumber(version), community, GET_REQUEST, requestId, 0, 0,
      seq(|wanted|, i requires 0 <= i < |wanted| => VarBind(OidOf(wanted[i]), NULL, [])))
  }

  // ---------------------------------------------------------------- listening

  datatype Arrival = Datagram(data: bytes) | PortUnreachable | NetworkError(reason: string)

  datatype Discard = Malformed(why: BerError) | OtherRequest

  datatype Heard =
    | Reply(message: SnmpMessage) | PortClosed | NoRoute(reason: string) | Nothing(discarded: Option<Discard>)

  /** Why a datagram is set aside, if it is. */
  function SetAside(data: bytes, requestId: int): Option<Discard> {
    match ParseMessage(data)
    case Err(why) => Some(Malformed(why))
    case Ok(reply) => if reply.requestId != requestId then Some(OtherRequest) else None
  }

  /** What is heard of the arrivals before the deadline, and what stays queued. */
  function ListenFrom(arrivals: seq<Arrival>, requestId: int, discarded: Option<Discard>): (Heard, seq<Arrival>) {
    if |arrivals| == 0 then (Nothing(discarded), [])
    else
      match arrivals[0]
      case PortUnreachable => (PortClosed, arrivals[1..])
      case NetworkError(reason) => (NoRoute(reason), arrivals[1..])
      case Datagram(data) =>
        var aside := SetAside(data, requestId);
        if aside.Some? then ListenFrom(arrivals[1..], requestId, aside)
        else (Reply(ParseMessage(data).value), arrivals[1..])
  }

  class Inbox {
    /** Everything that arrives before the deadline, in order; an empty queue is the deadline. */
    var arrivals: seq<Arrival>

    constructor (arrivals: seq<Arrival>)
      ensures this.arrivals == arrivals
    {
      this.arrivals := arrivals;
    }

    method Get() returns (arrival: Option<Arrival>)
      modifies this
      ensures old(arrivals) == [] ==> arrival == None && arrivals == []
      ensures old(arrivals) != [] ==> arrival == Some(old(arrivals)[0]) && arrivals == old(arrivals)[1..]
    {
      if arrivals == [] {
        return None;
      }
      arrival := Some(arrivals[0]);
      arrivals := arrivals[1..];
    }
  }

  method Listen(inbox: Inbox, requestId: int) returns (heard: Heard)
    modifies inbox
    ensures (heard, inbox.arrivals) == ListenFrom(old(inbox.arrivals), requestId, None)
  {
    var discarded: Option<Discard> := None;
    while true
      invariant ListenFrom(inbox.arrivals, requestId, discarded) == ListenFrom(old(inbox.arrivals), requestId, None)
      decreases |inbox.arrivals|
    {
      ghost var before := inbox.arrivals;
      var arrival := inbox.Get();
      match arrival
      case None => return Nothing(discarded);
      case Some(PortUnreachable) => return PortClosed;
      case Some(NetworkError(reason)) => return NoRoute(reason);
      case Some(Datagram(data)) =>
        var reply := ParseMessage(data);
        if reply.Err? {
          discarded := Some(Malformed(reply.error));
        } else if reply.value.requestId != requestId {
          discarded := Some(OtherRequest);
        } else {
          return Reply(reply.value);
        }
    }
  }

  // ---------------------------------------------------------------- what a reply says

  datatype BadReply =
    | NotAResponse | OtherVersion | ErrorStatus(status: int, index: int) | OtherValues
    | WrongType(kind: SystemValue) | TicksSize | TicksRange | BadObjectId(why: Oid.OidError)

  datatype ErrorText = RefusedReply(why: BadReply) | NoValidReply(last: Discard) | Network(reason: string)

  datatype ReadState = Answered | Silent | Refused | Unreachable | Error

  datatype SnmpSystem = SnmpSystem(state: ReadState, uptimeSeconds: Option<real>, name: Option<bytes>,
                                   description: Option<bytes>, objectId: Option<string>, error: Option<ErrorText>)

  const MAX_UPTIME_SECONDS: real := 4294967295.0 / 100.0

  function Ticks(body: bytes): Result<real, BadReply> {
    if !(1 <= |body| <= 5) then Err(TicksSize)
    else
      var value := if |body| != 4 then SignedBigEndian(body) else BigEndian(body);
      var seconds := value as real / 100.0;
      if 0.0 <= seconds <= MAX_UPTIME_SECONDS then Ok(seconds) else Err(TicksRange)
  }

  /** dict(zip(wanted, bindings)). */
  function Zip(wanted: seq<SystemValue>, bindings: seq<VarBind>): map<SystemValue, VarBind>
    requires |wanted| == |bindings|
  {
    if |wanted| == 0 then map[]
    else Zip(wanted[..|wanted| - 1], bindings[..|wanted| - 1])[wanted[|wanted| - 1] := bindings[|wanted| - 1]]
  }

  predicate IsException(tag: int) {
    0x80 <= tag <= 0x82
  }

  function Body(kind: SystemValue, bindings: map<SystemValue, VarBind>,
                version: Version): Result<Option<bytes>, BadReply> {
    if kind !in bindings || (IsException(bindings[kind].tag) && version.V2c?) then Ok(None)
    else if bindings[kind].tag != TypeOf(kind) then Err(WrongType(kind))
    else Ok(Some(bindings[kind].value))
  }

  function Check(reply: SnmpMessage, wanted: seq<SystemValue>, version: Version): Option<BadReply> {
    if reply.pduTag != GET_RESPONSE then Some(NotAResponse)
    else if reply.version != WireNumber(version) then Some(OtherVersion)
    else if reply.errorStatus != 0 then Some(ErrorStatus(reply.errorStatus, reply.errorIndex))
    else if |reply.bindings| != |wanted| || exists i :: 0 <= i < |wanted| && reply.bindings[i].oid != OidOf(wanted[i])
      then Some(OtherValues)
    else None
  }

  datatype Values = Values(description: Option<bytes>, objectId: Option<string>, uptimeSeconds: Option<real>,
                           name: Option<bytes>)

  function ObjectIdOf(body: Option<bytes>): Result<Option<string>, BadReply> {
    if body.None? then Ok(None)
    else
      match Oid.DecodeOid(body.value)
      case Ok(text) => Ok(Some(text))
      case Err(why) => Err(BadObjectId(why))
  }

  function UptimeOf(body: Option<bytes>): Result<Option<real>, BadReply> {
    if body.None? then Ok(None)
    else
      var seconds :- Ticks(body.value);
      Ok(Some(seconds))
  }

  function Decode(reply: SnmpMessage, wanted: seq<SystemValue>, version: Version): Result<Values, BadReply> {
    var bad := Check(reply, wanted, version);
    if bad.Some? then Err(bad.value)
    else
      var bindings := Zip(wanted, reply.bindings);
      var description :- Body(Description, bindings, version);
      var objectIdBody :- Body(ObjectId, bindings, version);
      var objectId :- ObjectIdOf(objectIdBody);
      var uptimeBody :- Body(Uptime, bindings, version);
      var uptime :- UptimeOf(uptimeBody);
      var name :- Body(Name, bindings, version);
      Ok(Values(description, objectId, uptime, name))
  }

  function FromReply(reply: SnmpMessage, wanted: seq<SystemValue>, version: Version): SnmpSystem {
    match Decode(reply, wanted, version)
    case Ok(v) => SnmpSystem(Answered, v.uptimeSeconds, v.name, v.description, v.objectId, None)
    case Err(why) => SnmpSystem(Error, None, None, None, None, Some(RefusedReply(why)))
  }

  function Unanswered(heard: Heard): SnmpSystem
    requires !heard.Reply?
  {
    match heard
    case PortClosed => SnmpSystem(Refused, None, None, None, None, None)
    case NoRoute(reason) => SnmpSystem(Unreachable, None, None, None, None, Some(Network(reason)))
    case Nothing(Some(last)) => SnmpSystem(Error, None, None, None, None, Some(NoValidReply(last)))
    case Nothing(None) => SnmpSystem(Silent, None, None, None, None, None)
  }

  /** The value an SNMPv1 noSuchName names, when the reply is exactly that. */
  function UnknownInV1(reply: SnmpMessage, wanted: seq<SystemValue>, version: Version): (r: Option<SystemValue>)
    ensures r.Some? ==> r.value in wanted
  {
    if !version.V1? || reply.errorStatus != 2 || reply.pduTag != GET_RESPONSE then None
    else if !(1 <= reply.errorIndex <= |wanted|) then None
    else Some(wanted[reply.errorIndex - 1])
  }

  function Without(wanted: seq<SystemValue>, kind: SystemValue): (r: seq<SystemValue>)
    ensures |r| <= |wanted|
    ensures kind in wanted ==> |r| < |wanted|
    ensures forall k :: k in r <==> k in wanted && k != kind
  {
    if |wanted| == 0 then []
    else
      var rest := Without(wanted[1..], kind);
      if wanted[0] == kind then rest else [wanted[0]] + rest
  }

  // ---------------------------------------------------------------- the conversation

  datatype Request = Request(id: int, wanted: seq<SystemValue>)

  /** A finished read: its result, what was sent, and the reply the result was read from, if one was. */
  datatype Conversation = Conversation(result: SnmpSystem, requests: seq<Request>, answer: Option<SnmpMessage>)

  function ConverseFrom(wanted: seq<SystemValue>, arrivals: seq<Arrival>, ids: seq<int>, version: Version): Conversation
    requires |ids| >= |wanted|
    decreases |wanted|
  {
    if |wanted| == 0 then Conversation(SnmpSystem(Answered, None, None, None, None, None), [], None)
    else
      var request := Request(ids[0], wanted);
      var (heard, rest) := ListenFrom(arrivals, ids[0], None);
      if !heard.Reply? then Conversation(Unanswered(heard), [request], None)
      else
        var unknown := UnknownInV1(heard.message, wanted, version);
        if unknown.None? then Conversation(FromReply(heard.message, wanted, version), [request], Some(heard.message))
        else
          var next := ConverseFrom(Without(wanted, unknown.value), rest, ids[1..], version);
          next.(requests := [request] + next.requests)
  }

  /** A conversation that had already made `requests`. */
  function After(requests: seq<Request>, c: Conversation): Conversation {
    c.(requests := requests + c.requests)
  }

  lemma AsksAgain(done: seq<Request>, wanted: seq<SystemValue>, arrivals: seq<Arrival>, ids: seq<int>, version: Version)
    requires |ids| >= |wanted| > 0
    ensures var (heard, rest) := ListenFrom(arrivals, ids[0], None);
            var whole := After(done, ConverseFrom(wanted, arrivals, ids, version));
            var asked := done + [Request(ids[0], wanted)];
            && (!heard.Reply? ==> whole.result == Unanswered(heard) && whole.requests == asked)
            && (heard.Reply? ==>
                  var unknown := UnknownInV1(heard.message, wanted, version);
                  && (unknown.None? ==>
                        whole.result == FromReply(heard.message, wanted, version) && whole.requests == asked)
                  && (unknown.Some? ==>
                        whole == After(asked, ConverseFrom(Without(wanted, unknown.value), rest, ids[1..], version))))
  {
    var (heard, rest) := ListenFrom(arrivals, ids[0], None);
    if heard.Reply? && UnknownInV1(heard.message, wanted, version).Some? {
      var next := ConverseFrom(Without(wanted, UnknownInV1(heard.message, wanted, version).value), rest, ids[1..],
        version);
      assert done + ([Request(ids[0], wanted)] + next.requests) == done + [Request(ids[0], wanted)] + next.requests;
    }
  }

  ghost predicate SentFor(sent: seq<Result<bytes, EncodeError>>, requests: seq<Request>, community: bytes,
                          version: Version) {
    && |sent| == |requests|
    && forall i :: 0 <= i < |sent| ==>
          sent[i] == EncodeMessage(GetRequest(version, community, requests[i].id, requests[i].wanted))
  }

  lemma SentOneMore(sent: seq<Result<bytes, EncodeError>>, requests: seq<Request>, next: Request, community: bytes,
                    version: Version)
    requires SentFor(sent, requests, community, version)
    ensures var datagram := EncodeMessage(GetRequest(version, community, next.id, next.wanted));
            SentFor(sent + [datagram], requests + [next], community, version)
  {
    hide EncodeMessage, GetRequest;
  }

  lemma NothingToAsk(done: seq<Request>, arrivals: seq<Arrival>, ids: seq<int>, version: Version)
    ensures After(done, ConverseFrom([], arrivals, ids, version)).result
            == SnmpSystem(Answered, None, None, None, None, None)
    ensures After(done, ConverseFrom([], arrivals, ids, version)).requests == done
  {
  }

  /** `ids` are the random request ids, drawn as they are needed; `sent` are the datagrams that went out. */
  method Converse(inbox: Inbox, ids: seq<int>, community: bytes, version: Version)
    returns (result: SnmpSystem, ghost requests: seq<Request>, sent: seq<Result<bytes, EncodeError>>)
    requires |ids| >= |ALL_VALUES|
    modifies inbox
    ensures var c := ConverseFrom(ALL_VALUES, old(inbox.arrivals), ids, version);
            && result == c.result && requests == c.requests
            && SentFor(sent, requests, community, version)
  {
    var wanted := ALL_VALUES;
    var drawn := 0;
    requests, sent := [], [];
    ghost var whole := ConverseFrom(ALL_VALUES, inbox.arrivals, ids, version);
    assert ids[0..] == ids && [] + whole.requests == whole.requests;
    assert SentFor(sent, requests, community, version) && whole == After([], whole);
    hide ConverseFrom, ListenFrom, GetRequest, EncodeMessage, FromReply, Unanswered, UnknownInV1, Without, SentFor,
      After;
    while wanted != []
      invariant drawn + |wanted| <= |ids|
      invariant SentFor(sent, requests, community, version)
      invariant whole == After(requests, ConverseFrom(wanted, inbox.arrivals, ids[drawn..], version))
      decreases |wanted|
    {
      AsksAgain(requests, wanted, inbox.arrivals, ids[drawn..], version);
      var requestId := ids[drawn];
      assert ids[drawn..][1..] == ids[drawn + 1..];
      SentOneMore(sent, requests, Request(requestId, wanted), community, version);
      requests := requests + [Request(requestId, wanted)];
      sent := sent + [EncodeMessage(GetRequest(version, community, requestId, wanted))];
      drawn := drawn + 1;
      var heard := Listen(inbox, requestId);
      if !heard.Reply? {
        return Unanswered(heard), requests, sent;
      }
      var unknown := UnknownInV1(heard.message, wanted, version);
      if unknown.None? {
        return FromReply(heard.message, wanted, version), requests, sent;
      }
      wanted := Without(wanted, unknown.value);
    }
    NothingToAsk(requests, inbox.arrivals, ids[drawn..], version);
    return SnmpSystem(Answered, None, None, None, None, None), requests, sent;
  }
}
