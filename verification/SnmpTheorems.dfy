/** What holds of every SNMP conversation, whatever the network delivers. */
module SnmpTheorems {
  import opened Bytes
  import opened SnmpBer
  import opened Snmp
  import Oid

  // ---------------------------------------------------------------- the result record

  /**
   * The record's own rule: values only when ANSWERED, an error exactly when ERROR or UNREACHABLE, an uptime in range.
   */
  predicate FieldsAgreeWithState(r: SnmpSystem) {
    && (r.state != Answered ==>
          r.uptimeSeconds == None && r.name == None && r.description == None && r.objectId == None)
    && (r.error.Some? <==> r.state == Error || r.state == Unreachable)
    && (r.uptimeSeconds.Some? ==> 0.0 <= r.uptimeSeconds.value <= 4294967295.0 / 100.0)
    && (r.objectId.Some? ==> Oid.IsReportable(r.objectId.value))
  }

  lemma ObjectIdIsReportable(body: Option<bytes>)
    ensures ObjectIdOf(body).Ok? && ObjectIdOf(body).value.Some? ==> Oid.IsReportable(ObjectIdOf(body).value.value)
  {
    if body.Some? && Oid.DecodeOid(body.value).Ok? {
      Oid.DecodedIsReportable(body.value);
    }
  }

  lemma UptimeInRange(body: Option<bytes>)
    ensures UptimeOf(body).Ok? && UptimeOf(body).value.Some? ==> 0.0 <= UptimeOf(body).value.value <= MAX_UPTIME_SECONDS
  {
  }

  lemma ReplyFieldsAgree(reply: SnmpMessage, wanted: seq<SystemValue>, version: Version)
    ensures FieldsAgreeWithState(FromReply(reply, wanted, version))
  {
    if Decode(reply, wanted, version).Ok? {
      var bindings := Zip(wanted, reply.bindings);
      ObjectIdIsReportable(Body(ObjectId, bindings, version).value);
      UptimeInRange(Body(Uptime, bindings, version).value);
      hide Check, Zip, Body, ObjectIdOf, UptimeOf, Oid.IsReportable;
    }
  }

  /** Every conversation ends in a record its own rule accepts, after at most one request for each value asked about. */
  lemma {:induction false} ConversationIsBounded(wanted: seq<SystemValue>, arrivals: seq<Arrival>, ids: seq<int>,
                                                 version: Version)
    requires |ids| >= |wanted|
    ensures var c := ConverseFrom(wanted, arrivals, ids, version);
            && FieldsAgreeWithState(c.result)
            && |c.requests| <= |wanted|
            && (forall i :: 0 <= i < |c.requests| ==> c.requests[i].id == ids[i])
            && (forall i :: 0 < i < |c.requests| ==> DropsOne(c.requests[i - 1].wanted, c.requests[i].wanted))
            && (|wanted| > 0 ==> |c.requests| > 0 && c.requests[0].wanted == wanted)
    decreases |wanted|
  {
    if |wanted| == 0 {
    } else {
      var (heard, rest) := ListenFrom(arrivals, ids[0], None);
      if heard.Reply? {
        var unknown := UnknownInV1(heard.message, wanted, version);
        if unknown.None? {
          ReplyFieldsAgree(heard.message, wanted, version);
        } else {
          var fewer := Without(wanted, unknown.value);
          ConversationIsBounded(fewer, rest, ids[1..], version);
          var c, next := ConverseFrom(wanted, arrivals, ids, version), ConverseFrom(fewer, rest, ids[1..], version);
          forall i | 0 < i < |c.requests| ensures DropsOne(c.requests[i - 1].wanted, c.requests[i].wanted) {
            if i == 1 {
              assert fewer == Without(wanted, unknown.value);
            } else {
              assert c.requests[i - 1] == next.requests[i - 2] && c.requests[i] == next.requests[i - 1];
            }
          }
        }
      }
    }
  }

  /** A re-ask asks for the same values, in the same order, but one. */
  predicate DropsOne(before: seq<SystemValue>, after: seq<SystemValue>) {
    exists kind :: kind in before && after == Without(before, kind)
  }

  // ---------------------------------------------------------------- where a value comes from

  /** The binding the answer to a request carries for one of the values still asked for. */
  predicate CarriedBy(kind: SystemValue, reply: SnmpMessage, wanted: seq<SystemValue>, value: bytes) {
    exists i :: && 0 <= i < |wanted| && wanted[i] == kind && i < |reply.bindings|
                && reply.bindings[i] == VarBind(OidOf(kind), TypeOf(kind), value)
  }

  lemma {:induction false} ZipFinds(wanted: seq<SystemValue>, bindings: seq<VarBind>, kind: SystemValue)
    requires |wanted| == |bindings|
    ensures kind in Zip(wanted, bindings) <==> kind in wanted
    ensures kind in wanted ==>
            exists i :: 0 <= i < |wanted| && wanted[i] == kind && bindings[i] == Zip(wanted, bindings)[kind]
  {
    if |wanted| == 0 {
    } else {
      var n := |wanted| - 1;
      ZipFinds(wanted[..n], bindings[..n], kind);
      assert wanted == wanted[..n] + [wanted[n]];
      if kind in wanted && wanted[n] != kind {
        var i :| 0 <= i < n && wanted[..n][i] == kind && bindings[..n][i] == Zip(wanted[..n], bindings[..n])[kind];
        assert wanted[i] == kind && bindings[i] == Zip(wanted, bindings)[kind];
      }
    }
  }

  /**
   * A value is taken only from the binding that names it, with its own type, of a successful response in the version
   * asked.
   */
  lemma ValuesAreCarried(reply: SnmpMessage, wanted: seq<SystemValue>, version: Version)
    requires Decode(reply, wanted, version).Ok?
    ensures var r := FromReply(reply, wanted, version);
            && reply.pduTag == 0xA2 && reply.version == (if version.V1? then 0 else 1) && reply.errorStatus == 0
            && (r.description.Some? ==> CarriedBy(Description, reply, wanted, r.description.value))
            && (r.name.Some? ==> CarriedBy(Name, reply, wanted, r.name.value))
            && (r.objectId.Some? ==>
                  exists body ::
                    CarriedBy(ObjectId, reply, wanted, body) && Oid.DecodeOid(body) == Ok(r.objectId.value))
            && (r.uptimeSeconds.Some? ==>
                  exists body :: CarriedBy(Uptime, reply, wanted, body) && Ticks(body) == Ok(r.uptimeSeconds.value))
  {
    var bindings := Zip(wanted, reply.bindings);
    BodyIsCarried(reply, wanted, version, Description);
    BodyIsCarried(reply, wanted, version, Name);
    BodyIsCarried(reply, wanted, version, ObjectId);
    BodyIsCarried(reply, wanted, version, Uptime);
  }

  lemma BodyIsCarried(reply: SnmpMessage, wanted: seq<SystemValue>, version: Version, kind: SystemValue)
    requires Check(reply, wanted, version) == None
    ensures var body := Body(kind, Zip(wanted, reply.bindings), version);
            body.Ok? && body.value.Some? ==> CarriedBy(kind, reply, wanted, body.value.value)
  {
    var bindings := Zip(wanted, reply.bindings);
    ZipFinds(wanted, reply.bindings, kind);
    var body := Body(kind, bindings, version);
    if body.Ok? && body.value.Some? {
      var i :| 0 <= i < |wanted| && wanted[i] == kind && reply.bindings[i] == bindings[kind];
      assert reply.bindings[i].oid == OidOf(wanted[i]);
      assert reply.bindings[i] == VarBind(OidOf(kind), TypeOf(kind), body.value.value);
    }
  }

  /** Some datagram that arrived parses to this message. */
  predicate Delivered(arrivals: seq<Arrival>, message: SnmpMessage) {
    exists i :: 0 <= i < |arrivals| && arrivals[i].Datagram? && ParseMessage(arrivals[i].data) == Ok(message)
  }

  /** A listener answers only with a delivered message that carries its request id, and leaves later arrivals queued. */
  lemma {:induction false} HeardWasDelivered(arrivals: seq<Arrival>, requestId: int, discarded: Option<Discard>)
    ensures var (heard, rest) := ListenFrom(arrivals, requestId, discarded);
            && (heard.Reply? ==> heard.message.requestId == requestId && Delivered(arrivals, heard.message))
            && (forall m :: Delivered(rest, m) ==> Delivered(arrivals, m))
    decreases |arrivals|
  {
    if |arrivals| == 0 {
    } else {
      var tail := arrivals[1..];
      forall m | Delivered(tail, m) ensures Delivered(arrivals, m) {
        var i :| 0 <= i < |tail| && tail[i].Datagram? && ParseMessage(tail[i].data) == Ok(m);
        assert arrivals[i + 1] == tail[i];
      }
      if arrivals[0].Datagram? && SetAside(arrivals[0].data, requestId).Some? {
        HeardWasDelivered(tail, requestId, SetAside(arrivals[0].data, requestId));
      }
    }
  }

  predicate ReportsAValue(r: SnmpSystem) {
    r.description.Some? || r.name.Some? || r.objectId.Some? || r.uptimeSeconds.Some?
  }

  /** The result is what a delivered message says, the one answering the last request by its id. */
  predicate ReadFromAnswer(c: Conversation, arrivals: seq<Arrival>, version: Version) {
    && c.answer.Some? && |c.requests| > 0
    && Delivered(arrivals, c.answer.value)
    && var last := c.requests[|c.requests| - 1];
       && c.answer.value.requestId == last.id
       && Decode(c.answer.value, last.wanted, version).Ok?
       && c.result == FromReply(c.answer.value, last.wanted, version)
  }

  /**
   * Any value a conversation reports comes from a datagram that arrived, that answered the last request by its id, and
   * whose binding for it is one that request still asked for.
   */
  lemma {:induction false} ReportedValuesWereAsked(wanted: seq<SystemValue>, arrivals: seq<Arrival>, ids: seq<int>,
                                                   version: Version)
    requires |ids| >= |wanted|
    ensures ReportsAValue(ConverseFrom(wanted, arrivals, ids, version).result) ==>
              ReadFromAnswer(ConverseFrom(wanted, arrivals, ids, version), arrivals, version)
    decreases |wanted|
  {
    if |wanted| == 0 {
    } else {
      var (heard, rest) := ListenFrom(arrivals, ids[0], None);
      HeardWasDelivered(arrivals, ids[0], None);
      if heard.Reply? {
        var unknown := UnknownInV1(heard.message, wanted, version);
        if unknown.Some? {
          ReportedValuesWereAsked(Without(wanted, unknown.value), rest, ids[1..], version);
        }
      }
    }
  }

  // ---------------------------------------------------------------- why a conversation ends as it does

  /** What a listener that heard nothing last set aside. */
  function LastAside(arrivals: seq<Arrival>, requestId: int, discarded: Option<Discard>): Option<Discard> {
    if |arrivals| > 0 && arrivals[|arrivals| - 1].Datagram? then SetAside(arrivals[|arrivals| - 1].data, requestId)
    else discarded
  }

  lemma {:induction false} ListenEnds(arrivals: seq<Arrival>, requestId: int, discarded: Option<Discard>)
    ensures var (heard, rest) := ListenFrom(arrivals, requestId, discarded);
            && (heard.PortClosed? ==> PortUnreachable in arrivals)
            && (heard.NoRoute? ==> NetworkError(heard.reason) in arrivals)
            && (heard.Nothing? ==> heard.discarded == LastAside(arrivals, requestId, discarded))
            && (heard.Nothing? && arrivals != [] ==> heard.discarded.Some?)
            && (heard.Nothing? ==> forall a :: a in arrivals ==> a.Datagram?)
            && (heard.Reply? ==> forall a :: a in arrivals ==> a.Datagram? || a in rest)
            && (forall a :: a in rest ==> a in arrivals)
            && (rest != [] ==> rest[|rest| - 1] == arrivals[|arrivals| - 1])
    decreases |arrivals|
  {
    hide SetAside;
    if |arrivals| == 0 {
    } else {
      var tail := arrivals[1..];
      assert arrivals == [arrivals[0]] + tail;
      assert arrivals[0].Datagram? && SetAside(arrivals[0].data, requestId).None? ==>
        ListenFrom(arrivals, requestId, discarded).0.Reply?;
      if arrivals[0].Datagram? && SetAside(arrivals[0].data, requestId).Some? {
        ListenEnds(tail, requestId, SetAside(arrivals[0].data, requestId));
      }
    }
  }

  /** An error that names a set-aside datagram is about the very last one to arrive, judged by the last request. */
  predicate LastWasSetAside(c: Conversation, arrivals: seq<Arrival>, why: Discard) {
    && |arrivals| > 0 && |c.requests| > 0 && arrivals[|arrivals| - 1].Datagram?
    && SetAside(arrivals[|arrivals| - 1].data, c.requests[|c.requests| - 1].id) == Some(why)
  }

  predicate IsEarned(c: Conversation, arrivals: seq<Arrival>) {
    var (state, error) := (c.result.state, c.result.error);
    && (state == Refused ==> PortUnreachable in arrivals)
    && (state == Unreachable ==> error.Some? && error.value.Network? && NetworkError(error.value.reason) in arrivals)
    && (state == Silent ==> forall a :: a in arrivals ==> a.Datagram?)
    && (|c.requests| == 1 ==> (state == Silent <==> arrivals == []))
    && (error.Some? && error.value.NoValidReply? ==>
          LastWasSetAside(c, arrivals, error.value.last) && forall a :: a in arrivals ==> a.Datagram?)
  }

  lemma EarnedUnanswered(arrivals: seq<Arrival>, request: Request)
    ensures var heard := ListenFrom(arrivals, request.id, None).0;
            !heard.Reply? ==> IsEarned(Conversation(Unanswered(heard), [request], None), arrivals)
  {
    ListenEnds(arrivals, request.id, None);
    assert arrivals == [] ==> ListenFrom(arrivals, request.id, None).0 == Nothing(None);
    hide ListenFrom, SetAside;
  }

  lemma EarnedLater(next: Conversation, rest: seq<Arrival>, request: Request, arrivals: seq<Arrival>)
    requires IsEarned(next, rest) && (next.requests == [] ==> next.result.state == Answered)
    requires arrivals != []
    requires (forall a :: a in arrivals ==> a.Datagram? || a in rest) && (forall a :: a in rest ==> a in arrivals)
    requires rest != [] ==> rest[|rest| - 1] == arrivals[|arrivals| - 1]
    ensures IsEarned(next.(requests := [request] + next.requests), arrivals)
  {
    hide SetAside;
    var c := next.(requests := [request] + next.requests);
    assert |next.requests| > 0 ==> c.requests[|c.requests| - 1] == next.requests[|next.requests| - 1];
  }

  lemma EarnedReply(reply: SnmpMessage, wanted: seq<SystemValue>, version: Version, request: Request,
                    arrivals: seq<Arrival>)
    requires arrivals != []
    ensures IsEarned(Conversation(FromReply(reply, wanted, version), [request], Some(reply)), arrivals)
  {
    hide Decode;
  }

  lemma NothingWasAsked(wanted: seq<SystemValue>, arrivals: seq<Arrival>, ids: seq<int>, version: Version)
    requires |ids| >= |wanted|
    ensures ConverseFrom(wanted, arrivals, ids, version).requests == [] ==>
            ConverseFrom(wanted, arrivals, ids, version).result.state == Answered
  {
    ConversationIsBounded(wanted, arrivals, ids, version);
  }

  /**
   * A state says what happened: REFUSED and UNREACHABLE only after the network said so, with its reason; SILENT at the
   * first request exactly when nothing arrived at all; no valid reply only when none but datagrams arrived and the last
   * was set aside for the reason given.
   */
  lemma {:induction false} StatesAreEarned(wanted: seq<SystemValue>, arrivals: seq<Arrival>, ids: seq<int>,
                                           version: Version)
    requires |ids| >= |wanted|
    ensures IsEarned(ConverseFrom(wanted, arrivals, ids, version), arrivals)
    decreases |wanted|
  {
    assert |wanted| == 0 ==> IsEarned(ConverseFrom(wanted, arrivals, ids, version), arrivals);
    hide IsEarned, FromReply, Unanswered, UnknownInV1, ListenFrom, SetAside, LastAside;
    if |wanted| == 0 {
    } else {
      var request := Request(ids[0], wanted);
      var (heard, rest) := ListenFrom(arrivals, ids[0], None);
      ListenEnds(arrivals, ids[0], None);
      EarnedUnanswered(arrivals, request);
      if heard.Reply? {
        SomethingArrived(arrivals, ids[0]);
        EarnedReply(heard.message, wanted, version, request, arrivals);
        var unknown := UnknownInV1(heard.message, wanted, version);
        if unknown.Some? {
          var fewer := Without(wanted, unknown.value);
          NothingWasAsked(fewer, rest, ids[1..], version);
          StatesAreEarned(fewer, rest, ids[1..], version);
          EarnedLater(ConverseFrom(fewer, rest, ids[1..], version), rest, request, arrivals);
        }
      }
    }
  }

  lemma SomethingArrived(arrivals: seq<Arrival>, requestId: int)
    ensures ListenFrom(arrivals, requestId, None).0.Reply? ==> arrivals != []
  {
  }

  /** What ends a conversation: its deadline, with what was last set aside, one arrival, or nothing left to ask for. */
  datatype Ending =
    | OutOfTime(aside: Option<Discard>)
    | DecidedBy(arrival: Arrival, wanted: seq<SystemValue>)
    | NothingLeft

  /** The arrivals one by one, re-asks included: the first neither set aside nor answered by asking again decides. */
  function EndingOf(wanted: seq<SystemValue>, arrivals: seq<Arrival>, ids: seq<int>, version: Version,
                    aside: Option<Discard>): Ending
    requires |ids| >= |wanted|
    decreases |arrivals|
  {
    if |wanted| == 0 then NothingLeft
    else if |arrivals| == 0 then OutOfTime(aside)
    else if !arrivals[0].Datagram? then DecidedBy(arrivals[0], wanted)
    else if SetAside(arrivals[0].data, ids[0]).Some? then
      EndingOf(wanted, arrivals[1..], ids, version, SetAside(arrivals[0].data, ids[0]))
    else
      var unknown := UnknownInV1(ParseMessage(arrivals[0].data).value, wanted, version);
      if unknown.Some? then EndingOf(Without(wanted, unknown.value), arrivals[1..], ids[1..], version, None)
      else DecidedBy(arrivals[0], wanted)
  }

  lemma {:induction false} ListenFinds(wanted: seq<SystemValue>, arrivals: seq<Arrival>, ids: seq<int>,
                                       version: Version, aside: Option<Discard>)
    requires |ids| >= |wanted| > 0
    ensures var (heard, rest) := ListenFrom(arrivals, ids[0], aside);
            EndingOf(wanted, arrivals, ids, version, aside)
            == match heard
               case Nothing(last) => OutOfTime(last)
               case PortClosed => DecidedBy(PortUnreachable, wanted)
               case NoRoute(reason) => DecidedBy(NetworkError(reason), wanted)
               case Reply(message) =>
                 if UnknownInV1(message, wanted, version).Some?
                 then EndingOf(Without(wanted, UnknownInV1(message, wanted, version).value), rest, ids[1..],
                               version, None)
                 else EndingOf(wanted, arrivals, ids, version, aside)
    ensures var heard := ListenFrom(arrivals, ids[0], aside).0;
            heard.Reply? && UnknownInV1(heard.message, wanted, version).None? ==>
              var ending := EndingOf(wanted, arrivals, ids, version, aside);
              && ending.DecidedBy? && ending.wanted == wanted
              && ending.arrival.Datagram? && ParseMessage(ending.arrival.data) == Ok(heard.message)
    decreases |arrivals|
  {
    hide UnknownInV1, Without, ParseMessage;
    if |arrivals| == 0 {
    } else if arrivals[0].Datagram? && SetAside(arrivals[0].data, ids[0]).Some? {
      ListenFinds(wanted, arrivals[1..], ids, version, SetAside(arrivals[0].data, ids[0]));
    }
  }

  /** The record each ending stands for. */
  predicate Reports(r: SnmpSystem, ending: Ending, version: Version) {
    match ending
    case NothingLeft => r == SnmpSystem(Answered, None, None, None, None, None)
    case OutOfTime(None) => r == SnmpSystem(Silent, None, None, None, None, None)
    case OutOfTime(Some(why)) => r == SnmpSystem(Error, None, None, None, None, Some(NoValidReply(why)))
    case DecidedBy(PortUnreachable, _) => r == SnmpSystem(Refused, None, None, None, None, None)
    case DecidedBy(NetworkError(reason), _) =>
      r == SnmpSystem(Unreachable, None, None, None, None, Some(Network(reason)))
    case DecidedBy(Datagram(data), wanted) =>
      && ParseMessage(data).Ok?
      && match Decode(ParseMessage(data).value, wanted, version)
         case Ok(v) => r == SnmpSystem(Answered, v.uptimeSeconds, v.name, v.description, v.objectId, None)
         case Err(why) => r == SnmpSystem(Error, None, None, None, None, Some(RefusedReply(why)))
  }

  /**
   * Every conversation reports exactly what ended it: REFUSED for a closed port, UNREACHABLE with its reason for a
   * network error, SILENT or a "no valid reply" at the deadline, what the last reply says if one decides, and an empty
   * ANSWERED only when nothing is left to ask for.
   */
  lemma {:induction false} EndingDecides(wanted: seq<SystemValue>, arrivals: seq<Arrival>, ids: seq<int>,
                                         version: Version)
    requires |ids| >= |wanted|
    ensures Reports(ConverseFrom(wanted, arrivals, ids, version).result,
                    EndingOf(wanted, arrivals, ids, version, None), version)
    decreases |wanted|
  {
    if |wanted| == 0 {
    } else {
      ListenFinds(wanted, arrivals, ids, version, None);
      var (heard, rest) := ListenFrom(arrivals, ids[0], None);
      hide ListenFrom, EndingOf, Decode, UnknownInV1, Without;
      if heard.Reply? && UnknownInV1(heard.message, wanted, version).Some? {
        EndingDecides(Without(wanted, UnknownInV1(heard.message, wanted, version).value), rest, ids[1..], version);
      }
    }
  }

  /** So each state has one cause, and the first arrival that is not set aside decides alone unless it is re-asked. */
  lemma StatesAreEndings(wanted: seq<SystemValue>, arrivals: seq<Arrival>, ids: seq<int>, version: Version)
    requires |ids| >= |wanted|
    ensures var r := ConverseFrom(wanted, arrivals, ids, version).result;
            var ending := EndingOf(wanted, arrivals, ids, version, None);
            && (r.state == Refused <==> ending.DecidedBy? && ending.arrival == PortUnreachable)
            && (r.state == Unreachable <==> ending.DecidedBy? && ending.arrival.NetworkError?)
            && (r.state == Silent <==> ending == OutOfTime(None))
            && (r.state == Answered ==> ending == NothingLeft || (ending.DecidedBy? && ending.arrival.Datagram?))
  {
    EndingDecides(wanted, arrivals, ids, version);
    hide Decode, EndingOf, ConverseFrom;
  }

  // ---------------------------------------------------------------- which replies are accepted

  /** A binding an answer may carry for a value: its own type, readable, or SNMPv2c's exception. */
  predicate IsAcceptable(bind: VarBind, kind: SystemValue, version: Version) {
    && bind.oid == OidOf(kind)
    && (|| (version.V2c? && 0x80 <= bind.tag <= 0x82)
        || (match kind
            case ObjectId => bind.tag == 0x06 && Oid.DecodeOid(bind.value).Ok?
            case Uptime => bind.tag == 0x43 && Ticks(bind.value).Ok?
            case _ => bind.tag == 0x04))
  }

  predicate Distinct(wanted: seq<SystemValue>) {
    forall i, j :: 0 <= i < j < |wanted| ==> wanted[i] != wanted[j]
  }

  predicate AllAcceptable(reply: SnmpMessage, wanted: seq<SystemValue>, version: Version) {
    |reply.bindings| == |wanted| && forall i :: 0 <= i < |wanted| ==>
      IsAcceptable(reply.bindings[i], wanted[i], version)
  }

  lemma {:induction false} ZipAt(wanted: seq<SystemValue>, bindings: seq<VarBind>, i: nat)
    requires |wanted| == |bindings| && Distinct(wanted) && i < |wanted|
    ensures wanted[i] in Zip(wanted, bindings) && Zip(wanted, bindings)[wanted[i]] == bindings[i]
  {
    var n := |wanted| - 1;
    if i < n {
      ZipAt(wanted[..n], bindings[..n], i);
    }
  }

  /** Whether one value can be read from the bindings. */
  predicate ReadsOne(bindings: map<SystemValue, VarBind>, kind: SystemValue, version: Version) {
    && Body(kind, bindings, version).Ok?
    && (kind == ObjectId ==> ObjectIdOf(Body(kind, bindings, version).value).Ok?)
    && (kind == Uptime ==> UptimeOf(Body(kind, bindings, version).value).Ok?)
  }

  lemma ReadsOneExactly(reply: SnmpMessage, wanted: seq<SystemValue>, kind: SystemValue, version: Version)
    requires Distinct(wanted) && Check(reply, wanted, version) == None
    ensures ReadsOne(Zip(wanted, reply.bindings), kind, version)
       <==> forall i :: 0 <= i < |wanted| && wanted[i] == kind ==> IsAcceptable(reply.bindings[i], kind, version)
  {
    NamesMatch(reply, wanted, version);
    assert Distinct(wanted) ==> forall i, j :: 0 <= i < j < |wanted| ==> wanted[i] != wanted[j];
    hide *;
    var bindings := Zip(wanted, reply.bindings);
    ZipFinds(wanted, reply.bindings, kind);
    if kind in bindings {
      var i :| 0 <= i < |wanted| && wanted[i] == kind;
      ZipAt(wanted, reply.bindings, i);
      BindingReads(bindings, kind, version);
    } else {
      AbsentReads(bindings, kind, version);
    }
  }

  lemma BindingReads(bindings: map<SystemValue, VarBind>, kind: SystemValue, version: Version)
    requires kind in bindings && bindings[kind].oid == OidOf(kind)
    ensures IsAcceptable(bindings[kind], kind, version) <==> ReadsOne(bindings, kind, version)
  {
    hide OidOf, Oid.DecodeOid, Ticks;
  }

  lemma AbsentReads(bindings: map<SystemValue, VarBind>, kind: SystemValue, version: Version)
    requires kind !in bindings
    ensures ReadsOne(bindings, kind, version)
  {
  }

  lemma ReadsAllExactly(reply: SnmpMessage, wanted: seq<SystemValue>, version: Version)
    requires Distinct(wanted) && Check(reply, wanted, version) == None
    ensures var bindings := Zip(wanted, reply.bindings);
            (&& ReadsOne(bindings, Description, version) && ReadsOne(bindings, ObjectId, version)
             && ReadsOne(bindings, Uptime, version) && ReadsOne(bindings, Name, version))
            <==> AllAcceptable(reply, wanted, version)
  {
    assert |reply.bindings| == |wanted|;
    ReadsOneExactly(reply, wanted, Description, version);
    ReadsOneExactly(reply, wanted, ObjectId, version);
    ReadsOneExactly(reply, wanted, Uptime, version);
    ReadsOneExactly(reply, wanted, Name, version);
    hide Zip, Check, IsAcceptable, ReadsOne;
  }

  /** A reply answers what was asked if and only if it is a successful response, in the version asked, to just that. */
  lemma AcceptedExactly(reply: SnmpMessage, wanted: seq<SystemValue>, version: Version)
    requires Distinct(wanted)
    ensures Decode(reply, wanted, version).Ok?
       <==> (&& reply.pduTag == 0xA2 && reply.version == (if version.V1? then 0 else 1) && reply.errorStatus == 0
             && AllAcceptable(reply, wanted, version))
  {
    NamesMatch(reply, wanted, version);
    if Check(reply, wanted, version) == None {
      ReadsAllExactly(reply, wanted, version);
    }
    hide Zip, Body, ObjectIdOf, UptimeOf, Check, AllAcceptable;
  }

  lemma NamesMatch(reply: SnmpMessage, wanted: seq<SystemValue>, version: Version)
    ensures AllAcceptable(reply, wanted, version) ==>
              |reply.bindings| == |wanted| && forall i :: 0 <= i < |wanted| ==>
                reply.bindings[i].oid == OidOf(wanted[i])
    ensures Check(reply, wanted, version) == None <==>
              && reply.pduTag == 0xA2 && reply.version == (if version.V1? then 0 else 1) && reply.errorStatus == 0
              && |reply.bindings| == |wanted| && forall i :: 0 <= i < |wanted| ==>
                    reply.bindings[i].oid == OidOf(wanted[i])
  {
    hide OidOf;
  }

  /**
   * A value is dropped and the rest asked for again exactly on SNMPv1's noSuchName (2) in a response that points at
   * it.
   */
  lemma RefusalExactly(reply: SnmpMessage, wanted: seq<SystemValue>, version: Version, kind: SystemValue)
    ensures UnknownInV1(reply, wanted, version) == Some(kind)
       <==> && version.V1? && reply.pduTag == 0xA2 && reply.errorStatus == 2
            && 1 <= reply.errorIndex <= |wanted| && wanted[reply.errorIndex - 1] == kind
  {
  }

  /**
   * The values asked for, by name and type: the system group of RFC 1213 section 6.2, the tags of RFC 2578 section
   * 7.1.
   */
  lemma SystemGroup()
    ensures OidOf(Description) == "1.3.6.1.2.1.1.1.0" && OidOf(ObjectId) == "1.3.6.1.2.1.1.2.0"
    ensures OidOf(Uptime) == "1.3.6.1.2.1.1.3.0" && OidOf(Name) == "1.3.6.1.2.1.1.5.0"
    ensures TypeOf(Description) == 0x04 && TypeOf(ObjectId) == 0x06 && TypeOf(Uptime) == 0x43 && TypeOf(Name) == 0x04
    ensures WireNumber(V1) == 0 && WireNumber(V2c) == 1
    ensures forall tag :: IsException(tag) <==> tag == 0x80 || tag == 0x81 || tag == 0x82
    ensures ALL_VALUES == [Description, ObjectId, Uptime, Name]
  {
  }

  // ---------------------------------------------------------------- noise

  /**
   * The arrivals without those the listeners set aside: whatever is malformed, and whatever carries another id than the
   * request being listened for, a late or repeated reply to an earlier request of the same conversation included.
   */
  function Heeded(wanted: seq<SystemValue>, arrivals: seq<Arrival>, ids: seq<int>, version: Version): seq<Arrival>
    requires |ids| >= |wanted|
    decreases |wanted|, |arrivals|
  {
    if |wanted| == 0 || |arrivals| == 0 || !arrivals[0].Datagram? then arrivals
    else if SetAside(arrivals[0].data, ids[0]).Some? then Heeded(wanted, arrivals[1..], ids, version)
    else
      var unknown := UnknownInV1(ParseMessage(arrivals[0].data).value, wanted, version);
      [arrivals[0]]
      + if unknown.Some? then Heeded(Without(wanted, unknown.value), arrivals[1..], ids[1..], version)
        else arrivals[1..]
  }

  const SILENCE := SnmpSystem(Silent, None, None, None, None, None)

  /** The two results are the same, or one says nothing came and the other that no valid reply did. */
  predicate SameButForNoise(noisy: SnmpSystem, quiet: SnmpSystem) {
    || noisy == quiet
    || (quiet == SILENCE && noisy.state == Error && noisy.error.Some? && noisy.error.value.NoValidReply?)
  }

  lemma QuietUnanswered(noisy: Heard, quiet: Heard)
    requires !noisy.Reply? && (noisy == quiet || (noisy.Nothing? && quiet == Nothing(None)))
    ensures SameButForNoise(Unanswered(noisy), Unanswered(quiet))
  {
    if noisy.Nothing? {
      match noisy.discarded {
        case None =>
        case Some(_) =>
      }
    }
  }

  /** A listener hears the same without what it and its successors set aside. */
  lemma {:induction false} ListenHeeds(wanted: seq<SystemValue>, arrivals: seq<Arrival>, ids: seq<int>,
                                       version: Version,
                                       discarded: Option<Discard>)
    requires |ids| >= |wanted| > 0
    ensures var (heard, rest) := ListenFrom(arrivals, ids[0], discarded);
            var (heard', rest') := ListenFrom(Heeded(wanted, arrivals, ids, version), ids[0], None);
            && heard' == (if heard.Nothing? then Nothing(None) else heard)
            && (heard.Reply? ==>
                  var unknown := UnknownInV1(heard.message, wanted, version);
                  rest' == if unknown.None? then rest
                  else Heeded(Without(wanted, unknown.value), rest, ids[1..], version))
    decreases |arrivals|
  {
    if |arrivals| == 0 {
    } else if arrivals[0].Datagram? && SetAside(arrivals[0].data, ids[0]).Some? {
      ListenHeeds(wanted, arrivals[1..], ids, version, SetAside(arrivals[0].data, ids[0]));
    } else if arrivals[0].Datagram? {
      var unknown := UnknownInV1(ParseMessage(arrivals[0].data).value, wanted, version);
      hide UnknownInV1, Without;
      var quiet := Heeded(wanted, arrivals, ids, version);
      assert quiet[0] == arrivals[0];
      assert unknown.Some? ==> quiet[1..] == Heeded(Without(wanted, unknown.value), arrivals[1..], ids[1..], version);
      assert unknown.None? ==> quiet[1..] == arrivals[1..];
    }
  }

  /**
   * However many malformed datagrams and replies to other requests arrive, and wherever: without them the conversation
   * makes the same requests, hears the same answer and reports the same, but for SILENT where it reported an ERROR.
   */
  lemma {:induction false} NoiseChangesNothing(wanted: seq<SystemValue>, arrivals: seq<Arrival>, ids: seq<int>,
                                               version: Version)
    requires |ids| >= |wanted|
    ensures var noisy := ConverseFrom(wanted, arrivals, ids, version);
            var quiet := ConverseFrom(wanted, Heeded(wanted, arrivals, ids, version), ids, version);
            && noisy.requests == quiet.requests
            && noisy.answer == quiet.answer
            && SameButForNoise(noisy.result, quiet.result)
    decreases |wanted|
  {
    if |wanted| == 0 {
    } else {
      ListenHeeds(wanted, arrivals, ids, version, None);
      var (heard, rest) := ListenFrom(arrivals, ids[0], None);
      if heard.Reply? {
        var unknown := UnknownInV1(heard.message, wanted, version);
        if unknown.Some? {
          NoiseChangesNothing(Without(wanted, unknown.value), rest, ids[1..], version);
        }
      } else {
        QuietUnanswered(heard, if heard.Nothing? then Nothing(None) else heard);
      }
      hide Heeded, ListenFrom, UnknownInV1, Unanswered, FromReply;
    }
  }
}
