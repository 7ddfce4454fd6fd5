/** What holds in every run of the asynchronous transport, and how it compares with the blocking one. */
module TransportTheorems {
  import opened Bytes
  import opened Packet
  import opened Transport

  // ---------------------------------------------------------------- every run

  /** Every probe outstanding or returned, never both, and the table is keyed by the probes' own tokens. */
  predicate TableIsSound(s: State) {
    && (forall t :: t in s.waiters ==> s.waiters[t].probe.token == t)
    && s.waiters.Keys + s.results.Keys == s.registered
    && s.waiters.Keys !! s.results.Keys
  }

  /** No probe's future is set twice. */
  predicate CompletedAtMostOnce(s: State) {
    forall i, j :: 0 <= i < j < |s.log| ==> s.log[i].probe.token != s.log[j].probe.token
  }

  /** A reply went to the probe whose token it carries; an error to the one probe then registered that it concerns. */
  predicate RightfullyCompleted(c: Completion, here: Endpoint) {
    && c.probe in c.among
    && match c.cause
       case ByReply(parsed) => parsed.Token() == Some(c.probe.token) && IsEchoReply(parsed, here.family)
         && c.arrival.Some? && !c.arrival.value.ttlExpired
       case ByError(error) => c.arrival == error.arrival && forall p :: p in c.among ==>
         (Concerns(error, p, here.destination) <==> p == c.probe)
  }

  /** A future is set exactly when the log says so, and with that; a returned arrival was logged. */
  predicate LogIsFaithful(s: State) {
    && (forall i :: 0 <= i < |s.log| ==> s.log[i].probe.token in s.registered)
    && (forall t :: t in s.waiters && s.waiters[t].answer.Resolved? ==>
          Logged(s.log, s.waiters[t].probe, s.waiters[t].answer.arrival))
    && (forall t, i :: t in s.waiters && 0 <= i < |s.log| && s.log[i].probe.token == t ==>
          s.waiters[t].answer == Resolved(s.log[i].arrival))
    && (forall t :: t in s.results && s.results[t].Some? ==> LoggedToken(s.log, t, s.results[t]))
  }

  predicate Logged(log: seq<Completion>, probe: Probe, arrival: Option<Arrival>) {
    exists i :: 0 <= i < |log| && log[i].probe == probe && log[i].arrival == arrival
  }

  predicate LoggedToken(log: seq<Completion>, token: bytes, arrival: Option<Arrival>) {
    exists i :: 0 <= i < |log| && log[i].probe.token == token && log[i].arrival == arrival
  }

  predicate Sound(s: State, here: Endpoint) {
    && TableIsSound(s)
    && CompletedAtMostOnce(s)
    && (forall i :: 0 <= i < |s.log| ==> RightfullyCompleted(s.log[i], here))
    && LogIsFaithful(s)
  }

  lemma CompleteIsSound(s: State, token: bytes, arrival: Option<Arrival>, cause: Cause, here: Endpoint)
    requires Sound(s, here) && token in s.waiters
    requires RightfullyCompleted(Completion(s.waiters[token].probe, arrival, cause, Probes(s.waiters)), here)
    ensures Sound(Complete(s, token, arrival, cause), here)
    ensures Complete(s, token, arrival, cause).waiters.Keys == s.waiters.Keys
    ensures Complete(s, token, arrival, cause).registered == s.registered
            && Complete(s, token, arrival, cause).results == s.results
  {
    var s' := Complete(s, token, arrival, cause);
    if s.waiters[token].answer.Pending? {
      var c := Completion(s.waiters[token].probe, arrival, cause, Probes(s.waiters));
      assert s'.log == s.log + [c] && s'.waiters == s.waiters[token := Waiter(c.probe, Resolved(arrival))];
      LogGrows(s.log, c);
      hide RightfullyCompleted, Complete, Probes, Logged, LoggedToken;
      assert s'.waiters.Keys == s.waiters.Keys;
    }
  }

  lemma LogGrows(log: seq<Completion>, c: Completion)
    ensures forall p, a :: Logged(log, p, a) ==> Logged(log + [c], p, a)
    ensures forall t, a :: LoggedToken(log, t, a) ==> LoggedToken(log + [c], t, a)
    ensures Logged(log + [c], c.probe, c.arrival)
  {
    var all := log + [c];
    assert all[|log|] == c;
    forall p, a | Logged(log, p, a) ensures Logged(all, p, a) {
      var i :| 0 <= i < |log| && log[i].probe == p && log[i].arrival == a;
      assert all[i] == log[i];
    }
    forall t, a | LoggedToken(log, t, a) ensures LoggedToken(all, t, a) {
      var i :| 0 <= i < |log| && log[i].probe.token == t && log[i].arrival == a;
      assert all[i] == log[i];
    }
  }

  lemma SettleIsSound(s: State, error: IcmpError, here: Endpoint)
    requires Sound(s, here)
    ensures Sound(Settle(s, error, here), here)
    ensures Settle(s, error, here).waiters.Keys == s.waiters.Keys
    ensures Settle(s, error, here).registered == s.registered && Settle(s, error, here).results == s.results
  {
    if exists t :: OnlyNamed(s.waiters, error, here, t) {
      var t :| OnlyNamed(s.waiters, error, here, t)
        && Settle(s, error, here) == (OnlyNamedIsRegistered(s.waiters, error, here, t);
              Complete(s, t, error.arrival, ByError(error)));
      OnlyNamedIsRegistered(s.waiters, error, here, t);
      forall p | p in Probes(s.waiters) ensures Concerns(error, p, here.destination) <==> p == s.waiters[t].probe {
        var u :| u in s.waiters && s.waiters[u].probe == p;
        assert u in Named(s.waiters, error, here) <==> u == t;
      }
      CompleteIsSound(s, t, error.arrival, ByError(error), here);
    }
  }

  lemma {:induction false} SettleAllIsSound(s: State, errors: seq<IcmpError>, here: Endpoint)
    requires Sound(s, here)
    ensures Sound(SettleAll(s, errors, here), here)
    ensures SettleAll(s, errors, here).waiters.Keys == s.waiters.Keys
    ensures SettleAll(s, errors, here).registered == s.registered && SettleAll(s, errors, here).results == s.results
    decreases |errors|
  {
    if |errors| == 0 {
    } else {
      SettleIsSound(s, errors[0], here);
      SettleAllIsSound(Settle(s, errors[0], here), errors[1..], here);
    }
  }

  lemma DatagramIsSound(s: State, d: Datagram, here: Endpoint)
    requires Sound(s, here)
    ensures Sound(SettleDatagram(s, d, here), here)
    ensures SettleDatagram(s, d, here).waiters.Keys == s.waiters.Keys
    ensures SettleDatagram(s, d, here).registered == s.registered && SettleDatagram(s, d, here).results == s.results
  {
    var parsed := ParseEchoReply(d.raw);
    if parsed.Some? && IsEchoReply(parsed.value, here.family) && parsed.value.Token().Some? {
      var token := parsed.value.Token().value;
      if token in s.waiters {
        CompleteIsSound(s, token, Some(Arrival(d.at, d.peer, false)), ByReply(parsed.value), here);
      }
    } else {
      var error := TimeExceededDatagram(d, here.family);
      if error.Some? {
        SettleIsSound(s, error.value, here);
      }
    }
  }

  lemma StepIsSound(s: State, e: Event, here: Endpoint)
    requires Sound(s, here) && Enabled(s, e)
    ensures Sound(Step(s, e, here), here)
  {
    match e
    case Registered(p) =>
    case Drained(errors) => SettleAllIsSound(s, errors, here);
    case Arrived(d) => DatagramIsSound(s, d, here);
    case Abandoned(t) =>
    case Returned(t, refused) =>
      var s' := Step(s, e, here);
      if s'.results[t].Some? {
        var i :| 0 <= i < |s.log| && s.log[i].probe == s.waiters[t].probe
          && s.log[i].arrival == s.waiters[t].answer.arrival;
        assert LoggedToken(s'.log, t, s'.results[t]);
      }
  }

  function RegisteredIn(events: seq<Event>): set<bytes> {
    if |events| == 0 then {}
    else
      var e := events[|events| - 1];
      RegisteredIn(events[..|events| - 1]) + if e.Registered? then {e.probe.token} else {}
  }

  function ReturnedIn(events: seq<Event>): set<bytes> {
    if |events| == 0 then {}
    else
      var e := events[|events| - 1];
      ReturnedIn(events[..|events| - 1]) + if e.Returned? then {e.token} else {}
  }

  lemma StepCounts(s: State, e: Event, here: Endpoint)
    requires Sound(s, here) && Enabled(s, e)
    ensures Step(s, e, here).registered == s.registered + if e.Registered? then {e.probe.token} else {}
    ensures Step(s, e, here).results.Keys == s.results.Keys + if e.Returned? then {e.token} else {}
  {
    match e
    case Drained(errors) => SettleAllIsSound(s, errors, here);
    case Arrived(d) => DatagramIsSound(s, d, here);
    case _ =>
  }

  /**
   * In every run with fresh tokens: each future is set at most once, by a reply carrying its token or by an error about
   * it alone; every arrival a probe returns was one of these; and the table holds exactly the probes that have
   * registered and not yet returned.
   */
  lemma {:induction false} EveryRunIsSound(events: seq<Event>, here: Endpoint)
    requires Run(events, here).Some?
    ensures Sound(Run(events, here).value, here)
    ensures Run(events, here).value.registered == RegisteredIn(events)
    ensures Run(events, here).value.results.Keys == ReturnedIn(events)
    ensures Run(events, here).value.waiters.Keys == RegisteredIn(events) - ReturnedIn(events)
    decreases |events|
  {
    if |events| == 0 {
    } else {
      var init, e := events[..|events| - 1], events[|events| - 1];
      var s := Run(init, here).value;
      EveryRunIsSound(init, here);
      StepIsSound(s, e, here);
      StepCounts(s, e, here);
    }
  }

  /**
   * What a probe returns is what its future holds: the arrival that was set, if any; nothing once it was cancelled, and
   * nothing when its send was refused, whatever its future holds.
   */
  lemma ReturnsWhatItHolds(s: State, here: Endpoint, t: bytes)
    requires t in s.waiters
    ensures s.waiters[t].answer.Pending? <==> !Enabled(s, Returned(t, false))
    ensures !s.waiters[t].answer.Pending? ==>
              var after := Step(s, Returned(t, false), here);
              && t !in after.waiters && t in after.results
              && (s.waiters[t].answer.Resolved? ==> after.results[t] == s.waiters[t].answer.arrival)
              && (s.waiters[t].answer.Cancelled? ==> after.results[t] == None)
    ensures Enabled(s, Returned(t, true))
    ensures var after := Step(s, Returned(t, true), here);
            t !in after.waiters && t in after.results && after.results[t] == None
    ensures s.waiters[t].answer.Pending? ==>
              && Enabled(s, Abandoned(t))
              && Step(s, Abandoned(t), here).waiters == s.waiters[t := Waiter(s.waiters[t].probe, Cancelled)]
  {
  }

  /** Once set, a future keeps its value through the rest of the run, until its probe returns exactly that. */
  lemma AnswersAreFinal(s: State, e: Event, here: Endpoint, t: bytes)
    requires Sound(s, here) && Enabled(s, e)
    requires t in s.waiters && !s.waiters[t].answer.Pending?
    ensures e == Returned(t, false) ==>
              Step(s, e, here).results[t] == if s.waiters[t].answer.Resolved? then s.waiters[t].answer.arrival else None
    ensures !e.Returned? || e.token != t ==>
            t in Step(s, e, here).waiters && Step(s, e, here).waiters[t] == s.waiters[t]
  {
    match e
    case Drained(errors) => SettleAllKeeps(s, errors, here, t);
    case Arrived(d) => DatagramIsSound(s, d, here);
    case _ =>
  }

  lemma {:induction false} SettleAllKeeps(s: State, errors: seq<IcmpError>, here: Endpoint, t: bytes)
    requires t in s.waiters && !s.waiters[t].answer.Pending?
    ensures t in SettleAll(s, errors, here).waiters && SettleAll(s, errors, here).waiters[t] == s.waiters[t]
    decreases |errors|
  {
    if |errors| == 0 {
    } else {
      SettleAllKeeps(Settle(s, errors[0], here), errors[1..], here, t);
    }
  }

  // ---------------------------------------------------------------- against the blocking transport

  lemma NotBoth(d: Datagram, family: Family)
    requires TimeExceededDatagram(d, family).Some?
    ensures ParseEchoReply(d.raw).Some? ==> !IsEchoReply(ParseEchoReply(d.raw).value, family)
    ensures TimeExceededDatagram(d, family).value.arrival.Some?
  {
  }

  /** An echo reply with this probe's token under another sequence number: the table is keyed by token alone. */
  predicate Misnumbered(d: Datagram, probe: Probe, family: Family) {
    var parsed := ParseEchoReply(d.raw);
    && parsed.Some? && IsEchoReply(parsed.value, family)
    && parsed.value.Token() == Some(probe.token) && parsed.value.sequence != probe.sequence
  }

  /** A Time Exceeded about more probes than this one. */
  predicate Ambiguous(d: Datagram, probe: Probe, s: State, here: Endpoint) {
    var error := TimeExceededDatagram(d, here.family);
    && error.Some? && Concerns(error.value, probe, here.destination)
    && exists t :: t in s.waiters && t != probe.token && Concerns(error.value, s.waiters[t].probe, here.destination)
  }

  lemma SettlesOnlyNamed(s: State, error: IcmpError, here: Endpoint, t: bytes)
    requires t in s.waiters && s.waiters[t].answer.Pending?
    ensures OnlyNamed(s.waiters, error, here, t) ==> Settle(s, error, here).waiters[t].answer == Resolved(error.arrival)
    ensures !OnlyNamed(s.waiters, error, here, t) ==> Settle(s, error, here).waiters[t].answer.Pending?
  {
    if exists u :: OnlyNamed(s.waiters, error, here, u) {
      var u :| OnlyNamed(s.waiters, error, here, u);
      assert forall v :: OnlyNamed(s.waiters, error, here, v) ==> v in {u};
    }
  }

  /**
   * One datagram, any number of probes outstanding. The asynchronous transport answers a pending probe exactly when the
   * blocking one would have accepted the datagram for it, with the same arrival, but for two cases: an error that fits
   * other registered probes too answers none of them, and a reply with the right token answers under any sequence.
   */
  lemma AgreesWithBlocking(s: State, d: Datagram, here: Endpoint, t: bytes)
    requires Sound(s, here) && t in s.waiters && s.waiters[t].answer.Pending?
    ensures var probe := s.waiters[t].probe;
            SettleDatagram(s, d, here).waiters[t].answer
            == if Misnumbered(d, probe, here.family) then Resolved(Some(Arrival(d.at, d.peer, false)))
               else if AnswerIn(d, probe, here).None? || Ambiguous(d, probe, s, here) then Pending
               else Resolved(AnswerIn(d, probe, here))
  {
    var probe := s.waiters[t].probe;
    var error := TimeExceededDatagram(d, here.family);
    if error.Some? {
      NotBoth(d, here.family);
      var named := Named(s.waiters, error.value, here);
      SettlesOnlyNamed(s, error.value, here, t);
      if Concerns(error.value, probe, here.destination) {
        assert t in named;
        if !Ambiguous(d, probe, s, here) {
          assert named == {t};
        } else {
          var u :| u in s.waiters && u != probe.token && Concerns(error.value, s.waiters[u].probe, here.destination);
          assert u in named;
        }
      } else {
        assert t !in named;
      }
    }
  }

  /** How one read settles the only probe outstanding in the asynchronous transport, if it does. */
  function SettledBy(read: Read, probe: Probe, here: Endpoint): Option<Option<Arrival>> {
    if IsMisnumbered(read, probe, here) then Some(Some(Arrival(read.datagram.at, read.datagram.peer, false)))
    else if read == Failed(None) then None
    else Ends(read, probe, here)
  }

  predicate IsMisnumbered(read: Read, probe: Probe, here: Endpoint) {
    read.Received? && Misnumbered(read.datagram, probe, here.family)
  }

  function SettleAt(incoming: seq<Read>, probe: Probe, here: Endpoint): (k: nat)
    ensures k <= |incoming|
  {
    if |incoming| == 0 || SettledBy(incoming[0], probe, here).Some? then 0 else 1 + SettleAt(incoming[1..], probe, here)
  }

  lemma {:induction false} SettleAtIsFirst(incoming: seq<Read>, probe: Probe, here: Endpoint)
    ensures var k := SettleAt(incoming, probe, here);
            && (k < |incoming| ==> SettledBy(incoming[k], probe, here).Some?)
            && (forall i :: 0 <= i < k ==> SettledBy(incoming[i], probe, here) == None)
  {
    hide SettledBy;
    if |incoming| == 0 || SettledBy(incoming[0], probe, here).Some? {
    } else {
      SettleAtIsFirst(incoming[1..], probe, here);
      assert forall i :: 0 < i < |incoming| ==> incoming[i] == incoming[1..][i - 1];
    }
  }

  ghost function SettleRead(s: State, read: Read, here: Endpoint): State {
    match read
    case Received(d) => SettleDatagram(s, d, here)
    case Failed(queued) => SettleAll(s, if queued.Some? then queued.value else [], here)
  }

  ghost function SettleReads(s: State, incoming: seq<Read>, here: Endpoint): State
    decreases |incoming|
  {
    if |incoming| == 0 then s else SettleReads(SettleRead(s, incoming[0], here), incoming[1..], here)
  }

  /** One probe outstanding, and this is it. */
  predicate Only(s: State, probe: Probe) {
    s.waiters.Keys == {probe.token} && s.waiters[probe.token].probe == probe
  }

  lemma OnlyOneIsNamed(s: State, error: IcmpError, here: Endpoint, probe: Probe)
    requires Only(s, probe)
    ensures Only(Settle(s, error, here), probe)
    ensures Settle(s, error, here).waiters[probe.token].answer
         == if s.waiters[probe.token].answer.Pending? && Concerns(error, probe, here.destination)
           then Resolved(error.arrival)
            else s.waiters[probe.token].answer
  {
    hide Concerns;
    var named := Named(s.waiters, error, here);
    assert probe.token in named <==> Concerns(error, probe, here.destination);
    assert OnlyNamed(s.waiters, error, here, probe.token) <==> named == {probe.token};
    assert forall t :: OnlyNamed(s.waiters, error, here, t) ==> t in named && t in s.waiters;
    if Concerns(error, probe, here.destination) {
      assert named == {probe.token};
    }
  }

  /** A drained queue settles a pending probe by its first error about it. */
  lemma {:induction false} DrainSettles(s: State, errors: seq<IcmpError>, here: Endpoint, probe: Probe)
    requires Only(s, probe)
    ensures Only(SettleAll(s, errors, here), probe)
    ensures var mine := FirstConcerning(errors, probe, here.destination);
            SettleAll(s, errors, here).waiters[probe.token].answer
            == if s.waiters[probe.token].answer.Pending? && mine.Some? then Resolved(mine.value.arrival)
               else s.waiters[probe.token].answer
    decreases |errors|
  {
    hide Concerns, Settle;
    if |errors| == 0 {
    } else {
      OnlyOneIsNamed(s, errors[0], here, probe);
      DrainSettles(Settle(s, errors[0], here), errors[1..], here, probe);
    }
  }

  lemma DatagramSettles(s: State, d: Datagram, here: Endpoint, probe: Probe)
    requires Sound(s, here) && Only(s, probe)
    ensures Only(SettleDatagram(s, d, here), probe)
    ensures var settled := SettledBy(Received(d), probe, here);
            SettleDatagram(s, d, here).waiters[probe.token].answer
            == if s.waiters[probe.token].answer.Pending? && settled.Some? then Resolved(settled.value)
               else s.waiters[probe.token].answer
  {
    DatagramIsSound(s, d, here);
    ProbesStay(s, d, here, probe.token);
    if s.waiters[probe.token].answer.Pending? {
      AgreesWithBlocking(s, d, here, probe.token);
      assert !Ambiguous(d, probe, s, here);
    } else {
      AnswersAreFinal(s, Arrived(d), here, probe.token);
    }
    hide SettleDatagram, Misnumbered, AnswerIn, Ambiguous, Sound;
  }

  lemma ReadSettles(s: State, read: Read, here: Endpoint, probe: Probe)
    requires Sound(s, here) && Only(s, probe)
    ensures Sound(SettleRead(s, read, here), here) && Only(SettleRead(s, read, here), probe)
    ensures var settled := SettledBy(read, probe, here);
            SettleRead(s, read, here).waiters[probe.token].answer
            == if s.waiters[probe.token].answer.Pending? && settled.Some? then Resolved(settled.value)
               else s.waiters[probe.token].answer
  {
    hide Sound, SettleDatagram, SettleAll, Misnumbered, AnswerIn, Concerns;
    match read {
      case Received(d) =>
        DatagramIsSound(s, d, here);
        DatagramSettles(s, d, here, probe);
      case Failed(queued) =>
        var errors := if queued.Some? then queued.value else [];
        SettleAllIsSound(s, errors, here);
        DrainSettles(s, errors, here, probe);
    }
  }

  /** Over any stream of reads the future of the only probe outstanding holds what the first read to settle it says. */
  lemma {:induction false} StreamSettles(s: State, incoming: seq<Read>, here: Endpoint, probe: Probe)
    requires Sound(s, here) && Only(s, probe)
    ensures Only(SettleReads(s, incoming, here), probe)
    ensures var before, k := s.waiters[probe.token].answer, SettleAt(incoming, probe, here);
            var answer := SettleReads(s, incoming, here).waiters[probe.token].answer;
            if !before.Pending? then answer == before
            else if k < |incoming| then answer.Resolved? && SettledBy(incoming[k], probe, here) == Some(answer.arrival)
            else answer.Pending?
    decreases |incoming|
  {
    hide Sound, SettleRead, SettledBy;
    if |incoming| == 0 {
    } else {
      ReadSettles(s, incoming[0], here, probe);
      StreamSettles(SettleRead(s, incoming[0], here), incoming[1..], here, probe);
    }
  }

  /**
   * No reply under another sequence number comes before the wait ends, nor is it an error with nothing queued that
   * ends it.
   */
  predicate AlikeUpTo(incoming: seq<Read>, n: nat, probe: Probe, here: Endpoint)
    requires n <= |incoming|
  {
    && (forall i :: 0 <= i < n ==> !IsMisnumbered(incoming[i], probe, here))
    && (n < |incoming| ==> incoming[n] != Failed(None))
  }

  lemma SettlesWhereItEnds(incoming: seq<Read>, probe: Probe, here: Endpoint)
    ensures var n := EndAt(incoming, probe, here);
            && (SettleAt(incoming, probe, here) == n <==> AlikeUpTo(incoming, n, probe, here))
            && (AlikeUpTo(incoming, n, probe, here) && n < |incoming| ==>
                  SettledBy(incoming[n], probe, here) == Ends(incoming[n], probe, here))
  {
    var n, k := EndAt(incoming, probe, here), SettleAt(incoming, probe, here);
    EndAtIsFirst(incoming, probe, here);
    SettleAtIsFirst(incoming, probe, here);
    forall i | 0 <= i < |incoming| && IsMisnumbered(incoming[i], probe, here)
      ensures Ends(incoming[i], probe, here) == None {
      MisnumberedIsNoAnswer(incoming[i].datagram, probe, here);
    }
    hide IsMisnumbered, Ends;
    if AlikeUpTo(incoming, n, probe, here) {
      assert forall i :: 0 <= i < n ==> SettledBy(incoming[i], probe, here) == None;
      assert n < |incoming| ==> SettledBy(incoming[n], probe, here).Some?;
    } else if i :| 0 <= i < n && IsMisnumbered(incoming[i], probe, here) {
      assert SettledBy(incoming[i], probe, here).Some?;
    } else {
      assert SettledBy(incoming[n], probe, here) == None;
    }
  }

  lemma MisnumberedIsNoAnswer(d: Datagram, probe: Probe, here: Endpoint)
    requires Misnumbered(d, probe, here.family)
    ensures AnswerIn(d, probe, here) == None
  {
    if TimeExceededDatagram(d, here.family).Some? {
      NotBoth(d, here.family);
    }
  }

  /**
   * A whole stream of datagrams and drained errors, one probe outstanding. The read that ends the blocking wait is the
   * one that settles the future if and only if no misnumbered reply comes before it and it is not an error with nothing
   * queued; both then say the same, or both go on waiting.
   */
  lemma SameAnswerAsBlocking(s: State, incoming: seq<Read>, here: Endpoint, probe: Probe)
    requires Sound(s, here) && Only(s, probe) && s.waiters[probe.token].answer.Pending?
    ensures Only(SettleReads(s, incoming, here), probe)
    ensures var n, k := EndAt(incoming, probe, here), SettleAt(incoming, probe, here);
            var answer := SettleReads(s, incoming, here).waiters[probe.token].answer;
            && (k == n <==> AlikeUpTo(incoming, n, probe, here))
            && (k == n < |incoming| ==> answer.Resolved? && Ends(incoming[n], probe, here) == Some(answer.arrival))
            && (answer.Pending? <==> k == |incoming|)
  {
    StreamSettles(s, incoming, here, probe);
    SettlesWhereItEnds(incoming, probe, here);
    hide Sound, AlikeUpTo, SettleReads, Ends, SettledBy;
  }

  lemma ProbesStay(s: State, d: Datagram, here: Endpoint, t: bytes)
    requires t in s.waiters
    ensures t in SettleDatagram(s, d, here).waiters && SettleDatagram(s, d, here).waiters[t].probe == s.waiters[t].probe
  {
  }

  /** The two transports do differ: the token under another sequence number answers one and not the other. */
  lemma MisnumberedRepliesExist(probe: Probe, here: Endpoint, sequence: nat, at: real, peer: string)
    requires |probe.token| == TOKEN_SIZE && IsU16(sequence) && sequence != probe.sequence
    ensures var payload := PayloadToBytes(EchoPayload(probe.token, []));
            var d := Datagram(RequestBytes(ReplyType(here.family), 0, 0, sequence, payload), peer, at);
            Misnumbered(d, probe, here.family) && AnswerIn(d, probe, here) == None
  {
    var raw := PayloadToBytes(EchoPayload(probe.token, []));
    PayloadRoundTrip(raw, EchoPayload(probe.token, []));
    HeaderReads(ReplyType(here.family), 0, 0, sequence, raw);
    var reply := RequestBytes(ReplyType(here.family), 0, 0, sequence, raw);
    StripsHeader([], reply, here.family);
    assert [] + reply == reply;
  }
}
