/**
 * Which probe an arriving datagram or ICMP error belongs to: the blocking transport's rule and the asynchronous
 * transport's table.
 */
module Transport {
  import opened Bytes
  import opened Packet

  datatype Arrival = Arrival(finished: real, source: string, ttlExpired: bool)

  /** `identifier` is None where the kernel rewrites it. */
  datatype Probe = Probe(sequence: nat, token: bytes, identifier: Option<nat>, hopLimited: bool)

  datatype IcmpError = IcmpError(probe: ParsedReply, destination: Option<bytes>, arrival: Option<Arrival>)

  /** One received datagram, its sender, and the clock reading taken when it was read. */
  datatype Datagram = Datagram(raw: bytes, peer: string, at: real)

  /** What is fixed for one transport: its family and its own packed destination, if that could be packed. */
  datatype Endpoint = Endpoint(family: Family, destination: Option<bytes>)

  predicate Matches(parsed: ParsedReply, probe: Probe, family: Family) {
    IsEchoReply(parsed, family) && parsed.sequence == probe.sequence && parsed.Token() == Some(probe.token)
  }

  predicate Concerns(error: IcmpError, probe: Probe, destination: Option<bytes>) {
    var quoted := error.probe;
    && quoted.sequence == probe.sequence
    && (quoted.Token() == None || quoted.Token() == Some(probe.token))
    && (probe.identifier == None || probe.identifier == Some(quoted.identifier))
    && (destination == None || error.destination == None || error.destination == destination)
    && (probe.hopLimited || error.arrival == None)
  }

  function TimeExceededDatagram(d: Datagram, family: Family): Option<IcmpError> {
    var quoted := QuotedEchoRequest(d.raw, family);
    if quoted.None? then None
    else Some(IcmpError(quoted.value.request, Some(quoted.value.destination), Some(Arrival(d.at, d.peer, true))))
  }

  // ---------------------------------------------------------------- the blocking transport

  function AnswerIn(d: Datagram, probe: Probe, here: Endpoint): Option<Arrival> {
    var parsed := ParseEchoReply(d.raw);
    if parsed.Some? && Matches(parsed.value, probe, here.family) then Some(Arrival(d.at, d.peer, false))
    else
      var error := TimeExceededDatagram(d, here.family);
      if error.None? || !Concerns(error.value, probe, here.destination) then None else error.value.arrival
  }

  /** What one read of the socket may bring before the deadline; Failed carries what the error queue then held. */
  datatype Read = Received(datagram: Datagram) | Failed(queued: Option<seq<IcmpError>>)

  function FirstConcerning(errors: seq<IcmpError>, probe: Probe, destination: Option<bytes>): Option<IcmpError> {
    if |errors| == 0 then None
    else if Concerns(errors[0], probe, destination) then Some(errors[0])
    else FirstConcerning(errors[1..], probe, destination)
  }

  /** How one read ends the wait, if it does: Some(None) ends it without an answer. */
  function Ends(read: Read, probe: Probe, here: Endpoint): Option<Option<Arrival>> {
    match read
    case Received(d) =>
      var arrival := AnswerIn(d, probe, here);
      if arrival.Some? then Some(arrival) else None
    case Failed(None) => Some(None)
    case Failed(Some(errors)) =>
      var mine := FirstConcerning(errors, probe, here.destination);
      if mine.Some? then Some(mine.value.arrival) else None
  }

  /** Where the wait ends: the first read that ends it, or past them all. */
  function EndAt(incoming: seq<Read>, probe: Probe, here: Endpoint): (n: nat)
    ensures n <= |incoming|
  {
    if |incoming| == 0 || Ends(incoming[0], probe, here).Some? then 0 else 1 + EndAt(incoming[1..], probe, here)
  }

  lemma {:induction false} EndAtIsFirst(incoming: seq<Read>, probe: Probe, here: Endpoint)
    ensures var n := EndAt(incoming, probe, here);
            && (n < |incoming| ==> Ends(incoming[n], probe, here).Some?)
            && (forall i :: 0 <= i < n ==> Ends(incoming[i], probe, here) == None)
  {
    hide Ends;
    if |incoming| == 0 || Ends(incoming[0], probe, here).Some? {
    } else {
      EndAtIsFirst(incoming[1..], probe, here);
      assert forall i :: 0 < i < |incoming| ==> incoming[i] == incoming[1..][i - 1];
    }
  }

  /** The waiting loop over the reads made before the deadline. */
  method Await(incoming: seq<Read>, probe: Probe, here: Endpoint) returns (arrival: Option<Arrival>, used: nat)
    ensures used <= |incoming|
    ensures forall i :: 0 <= i < used - 1 ==> Ends(incoming[i], probe, here) == None
    ensures arrival.Some? ==> used > 0 && Ends(incoming[used - 1], probe, here) == Some(arrival)
    ensures arrival.None? ==>
              || (used > 0 && Ends(incoming[used - 1], probe, here) == Some(None))
              || (used == |incoming| && forall i :: 0 <= i < used ==> Ends(incoming[i], probe, here) == None)
    ensures var n := EndAt(incoming, probe, here);
            && used == (if n < |incoming| then n + 1 else n)
            && (if n < |incoming| then Ends(incoming[n], probe, here) == Some(arrival) else arrival == None)
  {
    hide AnswerIn, Concerns;
    EndAtIsFirst(incoming, probe, here);
    used := 0;
    while used < |incoming|
      invariant used <= |incoming|
      invariant forall i :: 0 <= i < used ==> Ends(incoming[i], probe, here) == None
    {
      var read := incoming[used];
      used := used + 1;
      match read
      case Failed(queued) =>
        var mine := FirstConcerning(if queued.Some? then queued.value else [], probe, here.destination);
        if mine.Some? || queued.None? {
          return if mine.None? then None else mine.value.arrival, used;
        }
      case Received(d) =>
        var found := AnswerIn(d, probe, here);
        if found.Some? {
          return found, used;
        }
    }
    return None, used;
  }

  // ---------------------------------------------------------------- the asynchronous transport

  /** A future: set once with what ended the wait, or cancelled by a timeout or its task. */
  datatype Answer = Pending | Resolved(arrival: Option<Arrival>) | Cancelled

  datatype Waiter = Waiter(probe: Probe, answer: Answer)

  datatype Cause = ByReply(parsed: ParsedReply) | ByError(error: IcmpError)

  /** One future set: for which probe, with what, by what, and which probes were registered at that moment. */
  datatype Completion = Completion(probe: Probe, arrival: Option<Arrival>, cause: Cause, among: set<Probe>)

  /** The waiter table, and the history it is judged by. */
  datatype State = State(waiters: map<bytes, Waiter>, log: seq<Completion>, registered: set<bytes>,
                         results: map<bytes, Option<Arrival>>)

  const START := State(map[], [], {}, map[])

  function Probes(waiters: map<bytes, Waiter>): set<Probe> {
    set t | t in waiters :: waiters[t].probe
  }

  function Complete(s: State, token: bytes, arrival: Option<Arrival>, cause: Cause): State
    requires token in s.waiters
  {
    var w := s.waiters[token];
    if !w.answer.Pending? then s
    else s.(waiters := s.waiters[token := Waiter(w.probe, Resolved(arrival))],
            log := s.log + [Completion(w.probe, arrival, cause, Probes(s.waiters))])
  }

  function Named(waiters: map<bytes, Waiter>, error: IcmpError, here: Endpoint): set<bytes> {
    set t | t in waiters && Concerns(error, waiters[t].probe, here.destination)
  }

  /** `token` names the one registered probe the error is about. */
  ghost predicate OnlyNamed(waiters: map<bytes, Waiter>, error: IcmpError, here: Endpoint, token: bytes) {
    Named(waiters, error, here) == {token}
  }

  ghost function Settle(s: State, error: IcmpError, here: Endpoint): State {
    if exists t :: OnlyNamed(s.waiters, error, here, t) then
      var t :| OnlyNamed(s.waiters, error, here, t);
      OnlyNamedIsRegistered(s.waiters, error, here, t);
      Complete(s, t, error.arrival, ByError(error))
    else s
  }

  lemma OnlyNamedIsRegistered(waiters: map<bytes, Waiter>, error: IcmpError, here: Endpoint, token: bytes)
    requires OnlyNamed(waiters, error, here, token)
    ensures token in waiters && Concerns(error, waiters[token].probe, here.destination)
  {
    assert token in Named(waiters, error, here);
  }

  ghost function SettleAll(s: State, errors: seq<IcmpError>, here: Endpoint): State
    decreases |errors|
  {
    if |errors| == 0 then s else SettleAll(Settle(s, errors[0], here), errors[1..], here)
  }

  ghost function SettleDatagram(s: State, d: Datagram, here: Endpoint): State {
    var parsed := ParseEchoReply(d.raw);
    if parsed.Some? && IsEchoReply(parsed.value, here.family) && parsed.value.Token().Some? then
      var token := parsed.value.Token().value;
      if token in s.waiters then Complete(s, token, Some(Arrival(d.at, d.peer, false)), ByReply(parsed.value)) else s
    else
      var error := TimeExceededDatagram(d, here.family);
      if error.None? then s else Settle(s, error.value, here)
  }

  datatype Event =
    | Registered(probe: Probe)
    | Drained(errors: seq<IcmpError>)
    | Arrived(datagram: Datagram)
    | Abandoned(token: bytes)
    | Returned(token: bytes, sendRefused: bool)

  /** Tokens are fresh; a coroutine returns once its future is done, or at once when its send was refused. */
  predicate Enabled(s: State, e: Event) {
    match e
    case Registered(p) => p.token !in s.registered
    case Drained(_) => true
    case Arrived(_) => true
    case Abandoned(t) => t in s.waiters && s.waiters[t].answer.Pending?
    case Returned(t, refused) => t in s.waiters && (refused || !s.waiters[t].answer.Pending?)
  }

  function Outcome(answer: Answer, sendRefused: bool): Option<Arrival> {
    if !sendRefused && answer.Resolved? then answer.arrival else None
  }

  ghost function Step(s: State, e: Event, here: Endpoint): State
    requires Enabled(s, e)
  {
    match e
    case Registered(p) =>
      s.(waiters := s.waiters[p.token := Waiter(p, Pending)], registered := s.registered + {p.token})
    case Drained(errors) => SettleAll(s, errors, here)
    case Arrived(d) => SettleDatagram(s, d, here)
    case Abandoned(t) => s.(waiters := s.waiters[t := Waiter(s.waiters[t].probe, Cancelled)])
    case Returned(t, refused) =>
      s.(waiters := s.waiters - {t}, results := s.results[t := Outcome(s.waiters[t].answer, refused)])
  }

  /** The states a run may pass through, or None where an event could not happen. */
  ghost function Run(events: seq<Event>, here: Endpoint): Option<State> {
    if |events| == 0 then Some(START)
    else
      var before := Run(events[..|events| - 1], here);
      var e := events[|events| - 1];
      if before.Some? && Enabled(before.value, e) then Some(Step(before.value, e, here)) else None
  }

  // ---------------------------------------------------------------- the transport itself

  class AsyncTransport {
    const here: Endpoint
    var waiters: map<bytes, Waiter>
    ghost var log: seq<Completion>
    ghost var registered: set<bytes>
    ghost var results: map<bytes, Option<Arrival>>

    ghost function View(): State
      reads this
    {
      State(waiters, log, registered, results)
    }

    constructor (here: Endpoint)
      ensures View() == START && this.here == here
    {
      this.here := here;
      waiters := map[];
      log, registered, results := [], {}, map[];
    }

    method SetResult(token: bytes, arrival: Option<Arrival>, ghost cause: Cause)
      requires token in waiters
      modifies this
      ensures View() == Complete(old(View()), token, arrival, cause)
    {
      var waiter := waiters[token];
      if waiter.answer.Pending? {
        log := log + [Completion(waiter.probe, arrival, cause, Probes(waiters))];
        waiters := waiters[token := Waiter(waiter.probe, Resolved(arrival))];
      }
    }

    method SettleError(error: IcmpError)
      modifies this
      ensures View() == Settle(old(View()), error, here)
    {
      var named := set t | t in waiters && Concerns(error, waiters[t].probe, here.destination);
      assert named == Named(waiters, error, here);
      if |named| == 1 {
        var t :| t in named;
        Singleton(named, t);
        assert OnlyNamed(waiters, error, here, t);
        assert forall u :: OnlyNamed(waiters, error, here, u) ==> u in {t};
        SetResult(t, error.arrival, ByError(error));
      } else {
        assert forall t :: OnlyNamed(waiters, error, here, t) ==> |named| == 1;
      }
    }

    method SettleErrors(queued: Option<seq<IcmpError>>) returns (any: bool)
      modifies this
      ensures View() == SettleAll(old(View()), if queued.Some? then queued.value else [], here)
      ensures any == queued.Some?
    {
      var errors := if queued.Some? then queued.value else [];
      for i := 0 to |errors|
        invariant SettleAll(View(), errors[i..], here) == SettleAll(old(View()), errors, here)
      {
        SettleError(errors[i]);
      }
      return queued.Some?;
    }

    method OnDatagram(d: Datagram)
      modifies this
      ensures View() == SettleDatagram(old(View()), d, here)
    {
      var parsed := ParseEchoReply(d.raw);
      if parsed.Some? && IsEchoReply(parsed.value, here.family) && parsed.value.Token().Some? {
        var token := parsed.value.Token().value;
        if token in waiters {
          SetResult(token, Some(Arrival(d.at, d.peer, false)), ByReply(parsed.value));
        }
        return;
      }
      var error := TimeExceededDatagram(d, here.family);
      if error.Some? {
        SettleError(error.value);
      }
    }

    /** Up to two attempts; each refusal is retried only if the error queue held something, which is settled first. */
    method Send(attempts: seq<Attempt>) returns (sent: bool, tried: nat)
      requires |attempts| == 2
      modifies this
      ensures tried == if attempts[0].Sent? || attempts[0].queued.None? then 1 else 2
      ensures View() == SettleAll(old(View()), DrainedBy(attempts[..tried]), here)
      ensures sent <==> attempts[tried - 1].Sent?
      ensures !sent ==> attempts[0].Refused? && (attempts[0].queued.None? || attempts[1].Refused?)
    {
      tried := 0;
      sent := false;
      assert attempts[..0] == [];
      while tried < 2
        invariant 0 <= tried <= 2
        invariant View() == SettleAll(old(View()), DrainedBy(attempts[..tried]), here)
        invariant forall i :: 0 <= i < tried ==> attempts[i].Refused? && attempts[i].queued.Some?
      {
        var attempt := attempts[tried];
        tried := tried + 1;
        assert attempts[..tried] == attempts[..tried - 1] + [attempt];
        DrainedSnoc(attempts[..tried - 1], attempt);
        if attempt.Sent? {
          return true, tried;
        }
        ghost var queued := if attempt.queued.Some? then attempt.queued.value else [];
        SettleAllConcat(old(View()), DrainedBy(attempts[..tried - 1]), queued, here);
        var any := SettleErrors(attempt.queued);
        if !any {
          return false, tried;
        }
      }
    }

    method Register(probe: Probe)
      requires Enabled(View(), Registered(probe))
      modifies this
      ensures View() == Step(old(View()), Registered(probe), here)
    {
      waiters := waiters[probe.token := Waiter(probe, Pending)];
      registered := registered + {probe.token};
    }

    method Abandon(token: bytes)
      requires Enabled(View(), Abandoned(token))
      modifies this
      ensures View() == Step(old(View()), Abandoned(token), here)
    {
      waiters := waiters[token := Waiter(waiters[token].probe, Cancelled)];
    }

    /** The end of a probe: its result, and the entry removed whatever happened. */
    method Finish(token: bytes, sendRefused: bool) returns (arrival: Option<Arrival>)
      requires Enabled(View(), Returned(token, sendRefused))
      modifies this
      ensures View() == Step(old(View()), Returned(token, sendRefused), here)
      ensures View().results[token] == arrival
      ensures sendRefused || old(waiters)[token].answer.Cancelled? ==> arrival == None
      ensures !sendRefused && old(waiters)[token].answer.Resolved? ==> arrival == old(waiters)[token].answer.arrival
    {
      arrival := Outcome(waiters[token].answer, sendRefused);
      results := results[token := arrival];
      waiters := waiters - {token};
    }
  }

  datatype Attempt = Sent | Refused(queued: Option<seq<IcmpError>>)

  function DrainedBy(attempts: seq<Attempt>): seq<IcmpError> {
    if |attempts| == 0 then []
    else if attempts[0].Refused? && attempts[0].queued.Some? then attempts[0].queued.value + DrainedBy(attempts[1..])
    else DrainedBy(attempts[1..])
  }

  lemma {:induction false} DrainedSnoc(attempts: seq<Attempt>, last: Attempt)
    ensures DrainedBy(attempts + [last])
            == DrainedBy(attempts) + (if last.Refused? && last.queued.Some? then last.queued.value else [])
  {
    if |attempts| > 0 {
      DrainedSnoc(attempts[1..], last);
      assert (attempts + [last])[1..] == attempts[1..] + [last];
    } else {
      assert ([last])[1..] == [];
      assert attempts + [last] == [last];
    }
  }

  lemma {:induction false} SettleAllConcat(s: State, a: seq<IcmpError>, b: seq<IcmpError>, here: Endpoint)
    ensures SettleAll(s, a + b, here) == SettleAll(SettleAll(s, a, here), b, here)
    decreases |a|
  {
    if |a| == 0 {
      assert a + b == b;
    } else {
      assert (a + b)[1..] == a[1..] + b;
      SettleAllConcat(Settle(s, a[0], here), a[1..], b, here);
    }
  }

  lemma Singleton<T>(s: set<T>, x: T)
    requires x in s && |s| == 1
    ensures s == {x}
  {
    assert |s - {x}| == 0;
  }
}
