/** From the bytes a probe sends to the future it resolves: the codec and the asynchronous transport together. */
module ProbeTheorems {
  import opened Bytes
  import opened IpHeaders
  import opened Packet
  import opened Transport
  import TransportTheorems

  /** A probe waiting for the answer to a request that was really built for it. */
  predicate Awaits(s: State, sequence: int, token: bytes) {
    token in s.waiters && s.waiters[token].answer.Pending? && s.waiters[token].probe.sequence == sequence
      && s.waiters[token].probe.token == token
  }

  function Answered(s: State, token: bytes, arrival: Arrival): map<bytes, Waiter>
    requires token in s.waiters
  {
    s.waiters[token := Waiter(s.waiters[token].probe, Resolved(Some(arrival)))]
  }

  /**
   * The peer's echo of a request resolves the probe that sent it and touches no other, whatever else is outstanding
   * and however the identifier and checksum were rewritten; the blocking transport accepts it too.
   */
  lemma EchoReachesItsProbe(s: State, here: Endpoint, sequence: int, payloadSize: int, identifier: int, token: bytes,
                            outer: bytes, sum: nat, rewritten: nat, peer: string, at: real)
    requires BuildEchoRequest(sequence, payloadSize, here.family, identifier, token).Ok?
    requires Awaits(s, sequence, token) && IsOuterHeader(outer, here.family) && IsU16(rewritten)
    ensures var datagram := BuildEchoRequest(sequence, payloadSize, here.family, identifier, token).value.datagram;
            var d := Datagram(outer + EchoOf(datagram, here.family, sum, rewritten), peer, at);
            && SettleDatagram(s, d, here).waiters == Answered(s, token, Arrival(at, peer, false))
            && AnswerIn(d, s.waiters[token].probe, here) == Some(Arrival(at, peer, false))
  {
    ReplyIsRecognised(sequence, payloadSize, here.family, identifier, token, outer, sum, rewritten);
    hide BuildEchoRequest, ParseEchoReply, EchoOf, IsOuterHeader, IsTimeExceeded;
  }

  /** Another registered probe that a quote too short for a token could equally be about. */
  predicate Rival(p: Probe, token: bytes, sequence: int, identifier: int) {
    p.token != token && p.sequence == sequence && p.hopLimited
      && (p.identifier == None || p.identifier == Some(identifier))
  }

  /** What a router quoting `k` bytes of a request must get right for its probe to believe it. */
  predicate Believable(probe: Probe, here: Endpoint, identifier: int, destination: bytes) {
    && probe.hopLimited
    && (probe.identifier == None || probe.identifier == Some(identifier))
    && (here.destination == None || here.destination == Some(destination))
  }

  lemma QuoteConcerns(quoted: ParsedReply, p: Probe, here: Endpoint, destination: bytes, arrival: Arrival)
    ensures Concerns(IcmpError(quoted, Some(destination), Some(arrival)), p, here.destination)
       <==> (&& quoted.sequence == p.sequence
             && (quoted.Token() == None || quoted.Token() == Some(p.token))
             && Believable(p, here, quoted.identifier, destination))
  {
  }

  /**
   * A router's Time Exceeded quoting any `k` >= 8 bytes of a request behind its IP header resolves the probe that sent
   * it, as expired, and touches no other, if and only if the quote reaches the end of the token or no other registered
   * probe could be meant; otherwise it changes nothing at all.
   */
  lemma QuoteReachesItsProbe(s: State, here: Endpoint, sequence: int, payloadSize: int, identifier: int, token: bytes,
                             k: nat, outer: bytes, timeExceeded: bytes, h: IpHeader, peer: string, at: real)
    requires BuildEchoRequest(sequence, payloadSize, here.family, identifier, token).Ok?
    requires 8 <= k <= |BuildEchoRequest(sequence, payloadSize, here.family, identifier, token).value.datagram|
    requires |timeExceeded| == 8 && timeExceeded[0] == (if here.family.IPv6? then 3 else 11)
    requires IsOf(h, here.family) && h.protocol == (if here.family.IPv6? then 58 else 1)
             && IsOuterHeader(outer, here.family)
    requires Awaits(s, sequence, token) && TransportTheorems.TableIsSound(s)
    requires Believable(s.waiters[token].probe, here, identifier, h.destination)
    ensures var datagram := BuildEchoRequest(sequence, payloadSize, here.family, identifier, token).value.datagram;
            var d := Datagram(outer + (timeExceeded + (EncodeHeader(h) + datagram[..k])), peer, at);
            SettleDatagram(s, d, here).waiters
            == if k >= 24 || NoRivals(s, token, sequence, identifier) then Answered(s, token, Arrival(at, peer, true))
               else s.waiters
  {
    var datagram := BuildEchoRequest(sequence, payloadSize, here.family, identifier, token).value.datagram;
    var d := Datagram(outer + (timeExceeded + (EncodeHeader(h) + datagram[..k])), peer, at);
    QuotedProbeIsRecovered(sequence, payloadSize, here.family, identifier, token, k, outer, timeExceeded, h);
    TransportTheorems.NotBoth(d, here.family);
    var error := TimeExceededDatagram(d, here.family).value;
    forall t | t in s.waiters
      ensures Concerns(error, s.waiters[t].probe, here.destination)
         <==> t == token || (k < 24 && Rival(s.waiters[t].probe, token, sequence, identifier))
    {
      QuoteConcerns(error.probe, s.waiters[t].probe, here, h.destination, Arrival(at, peer, true));
    }
    SettlesTheOnlyOne(s, error, here, token);
  }

  predicate NoRivals(s: State, token: bytes, sequence: int, identifier: int) {
    forall t :: t in s.waiters ==> !Rival(s.waiters[t].probe, token, sequence, identifier)
  }

  /**
   * An error about this probe resolves it when no other registered probe could be meant, and otherwise changes
   * nothing.
   */
  lemma SettlesTheOnlyOne(s: State, error: IcmpError, here: Endpoint, token: bytes)
    requires token in s.waiters && s.waiters[token].answer.Pending? && error.arrival.Some?
    requires Concerns(error, s.waiters[token].probe, here.destination)
    ensures Settle(s, error, here).waiters
         == if exists t :: t in s.waiters && t != token && Concerns(error, s.waiters[t].probe, here.destination)
            then s.waiters else Answered(s, token, error.arrival.value)
  {
    hide Concerns;
    var named := Named(s.waiters, error, here);
    assert token in named;
    if t :| t in s.waiters && t != token && Concerns(error, s.waiters[t].probe, here.destination) {
      assert t in named;
    } else {
      assert named == {token} && OnlyNamed(s.waiters, error, here, token);
      forall u | OnlyNamed(s.waiters, error, here, u) ensures u == token {
        assert u in named;
      }
    }
  }

  // ---------------------------------------------------------------- errors that bring no arrival

  /** What an error without a destination, or without an arrival, is about: then nothing of the kind is compared. */
  lemma OtherErrorsConcern(quoted: ParsedReply, p: Probe, here: Endpoint, destination: bytes, arrival: Arrival)
    ensures var mine := && quoted.sequence == p.sequence
                        && (quoted.Token() == None || quoted.Token() == Some(p.token))
                        && (p.identifier == None || p.identifier == Some(quoted.identifier));
            var there := here.destination == None || here.destination == Some(destination);
            && (Concerns(IcmpError(quoted, None, None), p, here.destination) <==> mine)
            && (Concerns(IcmpError(quoted, None, Some(arrival)), p, here.destination) <==> mine && p.hopLimited)
            && (Concerns(IcmpError(quoted, Some(destination), None), p, here.destination) <==> mine && there)
  {
  }

  // ---------------------------------------------------------------- what a probe returns

  /** The rest of a run, in the order it happens. */
  ghost function Onward(s: State, events: seq<Event>, here: Endpoint): Option<State>
    decreases |events|
  {
    if |events| == 0 then Some(s)
    else if Enabled(s, events[0]) then Onward(Step(s, events[0], here), events[1..], here)
    else None
  }

  /** Whatever happens to other probes meanwhile, a probe whose future was set returns just that. */
  lemma {:induction false} ReturnsItsAnswer(s: State, events: seq<Event>, here: Endpoint, token: bytes,
                                            answer: Option<Arrival>)
    requires TransportTheorems.Sound(s, here) && token in s.waiters && s.waiters[token].answer == Resolved(answer)
    requires forall i :: 0 <= i < |events| ==> !events[i].Returned? || events[i].token != token
    requires Onward(s, events, here).Some?
    ensures var before := Onward(s, events, here).value;
            && Enabled(before, Returned(token, false))
            && token in Step(before, Returned(token, false), here).results
            && Step(before, Returned(token, false), here).results[token] == answer
            && token !in Step(before, Returned(token, false), here).waiters
    decreases |events|
  {
    hide TransportTheorems.Sound;
    if |events| == 0 {
      TransportTheorems.ReturnsWhatItHolds(s, here, token);
    } else {
      TransportTheorems.AnswersAreFinal(s, events[0], here, token);
      TransportTheorems.StepIsSound(s, events[0], here);
      hide Step, Enabled;
      ReturnsItsAnswer(Step(s, events[0], here), events[1..], here, token, answer);
    }
  }

  /**
   * From the request's bytes to the probe's result: its peer's echo arrives, anything else follows, it returns that.
   */
  lemma EchoIsReturned(s: State, here: Endpoint, sequence: int, payloadSize: int, identifier: int, token: bytes,
                       outer: bytes, sum: nat, rewritten: nat, peer: string, at: real, later: seq<Event>)
    requires BuildEchoRequest(sequence, payloadSize, here.family, identifier, token).Ok?
    requires Awaits(s, sequence, token) && IsOuterHeader(outer, here.family) && IsU16(rewritten)
    requires TransportTheorems.Sound(s, here)
    requires forall i :: 0 <= i < |later| ==> !later[i].Returned? || later[i].token != token
    ensures var datagram := BuildEchoRequest(sequence, payloadSize, here.family, identifier, token).value.datagram;
            var d := Datagram(outer + EchoOf(datagram, here.family, sum, rewritten), peer, at);
            var before := Onward(Step(s, Arrived(d), here), later, here);
            before.Some? ==>
              && Enabled(before.value, Returned(token, false))
              && token in Step(before.value, Returned(token, false), here).results
              && Step(before.value, Returned(token, false), here).results[token] == Some(Arrival(at, peer, false))
  {
    var datagram := BuildEchoRequest(sequence, payloadSize, here.family, identifier, token).value.datagram;
    var d := Datagram(outer + EchoOf(datagram, here.family, sum, rewritten), peer, at);
    EchoReachesItsProbe(s, here, sequence, payloadSize, identifier, token, outer, sum, rewritten, peer, at);
    TransportTheorems.StepIsSound(s, Arrived(d), here);
    assert Step(s, Arrived(d), here) == SettleDatagram(s, d, here);
    var s' := Step(s, Arrived(d), here);
    assert s'.waiters[token].answer == Resolved(Some(Arrival(at, peer, false)));
    hide *;
    if Onward(s', later, here).Some? {
      ReturnsItsAnswer(s', later, here, token, Some(Arrival(at, peer, false)));
    }
  }

  /** Likewise a hop that let the probe expire is returned as that hop, when its quote names the probe alone. */
  lemma HopIsReturned(s: State, here: Endpoint, sequence: int, payloadSize: int, identifier: int, token: bytes,
                      k: nat, outer: bytes, timeExceeded: bytes, h: IpHeader, peer: string, at: real, later: seq<Event>)
    requires BuildEchoRequest(sequence, payloadSize, here.family, identifier, token).Ok?
    requires 8 <= k <= |BuildEchoRequest(sequence, payloadSize, here.family, identifier, token).value.datagram|
    requires |timeExceeded| == 8 && timeExceeded[0] == (if here.family.IPv6? then 3 else 11)
    requires IsOf(h, here.family) && h.protocol == (if here.family.IPv6? then 58 else 1)
             && IsOuterHeader(outer, here.family)
    requires Awaits(s, sequence, token) && TransportTheorems.Sound(s, here)
    requires Believable(s.waiters[token].probe, here, identifier, h.destination)
    requires k >= 24 || NoRivals(s, token, sequence, identifier)
    requires forall i :: 0 <= i < |later| ==> !later[i].Returned? || later[i].token != token
    ensures var datagram := BuildEchoRequest(sequence, payloadSize, here.family, identifier, token).value.datagram;
            var d := Datagram(outer + (timeExceeded + (EncodeHeader(h) + datagram[..k])), peer, at);
            var before := Onward(Step(s, Arrived(d), here), later, here);
            before.Some? ==>
              && Enabled(before.value, Returned(token, false))
              && token in Step(before.value, Returned(token, false), here).results
              && Step(before.value, Returned(token, false), here).results[token] == Some(Arrival(at, peer, true))
  {
    var datagram := BuildEchoRequest(sequence, payloadSize, here.family, identifier, token).value.datagram;
    var d := Datagram(outer + (timeExceeded + (EncodeHeader(h) + datagram[..k])), peer, at);
    QuoteReachesItsProbe(s, here, sequence, payloadSize, identifier, token, k, outer, timeExceeded, h, peer, at);
    TransportTheorems.StepIsSound(s, Arrived(d), here);
    assert Step(s, Arrived(d), here) == SettleDatagram(s, d, here);
    var s' := Step(s, Arrived(d), here);
    assert s'.waiters[token].answer == Resolved(Some(Arrival(at, peer, true)));
    hide *;
    if Onward(s', later, here).Some? {
      ReturnsItsAnswer(s', later, here, token, Some(Arrival(at, peer, true)));
    }
  }

  /** An error of the queue that says the request was not delivered ends its probe without an answer, and no other. */
  lemma UndeliveredIsReturned(s: State, here: Endpoint, quoted: ParsedReply, destination: Option<bytes>, token: bytes,
                              later: seq<Event>)
    requires TransportTheorems.Sound(s, here) && token in s.waiters && s.waiters[token].answer.Pending?
    requires var p := s.waiters[token].probe;
             && quoted.sequence == p.sequence && quoted.Token() == Some(token)
             && (p.identifier == None || p.identifier == Some(quoted.identifier))
             && (destination == None || here.destination == None || destination == here.destination)
    requires forall i :: 0 <= i < |later| ==> !later[i].Returned? || later[i].token != token
    ensures var error := IcmpError(quoted, destination, None);
            && Settle(s, error, here).waiters == s.waiters[token := Waiter(s.waiters[token].probe, Resolved(None))]
            && var before := Onward(Step(s, Drained([error]), here), later, here);
               before.Some? ==>
                 && Enabled(before.value, Returned(token, false))
                 && token in Step(before.value, Returned(token, false), here).results
                 && Step(before.value, Returned(token, false), here).results[token] == None
  {
    var error := IcmpError(quoted, destination, None);
    forall t | t in s.waiters ensures Concerns(error, s.waiters[t].probe, here.destination) <==> t == token {
    }
    var named := Named(s.waiters, error, here);
    assert named == {token} && OnlyNamed(s.waiters, error, here, token);
    forall u | OnlyNamed(s.waiters, error, here, u) ensures u == token {
      assert u in named;
    }
    TransportTheorems.StepIsSound(s, Drained([error]), here);
    assert [error][1..] == [];
    assert SettleAll(Settle(s, error, here), [], here) == Settle(s, error, here);
    var s' := Step(s, Drained([error]), here);
    assert s' == Settle(s, error, here);
    assert s'.waiters[token].answer == Resolved(None);
    hide *;
    if Onward(s', later, here).Some? {
      ReturnsItsAnswer(s', later, here, token, None);
    }
  }
}
