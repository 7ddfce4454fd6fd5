/** One DHCP watch: what the reader records, what the iterators replay, and when the exchange counts as quiet. */
module Dhcp {
  import opened Bytes
  import opened Bootp

  // ---------------------------------------------------------------- distinct, in first-seen order

  function Merge(existing: seq<bytes>, incoming: seq<bytes>): seq<bytes>
    decreases |incoming|
  {
    if |incoming| == 0 then existing
    else Merge(if incoming[0] in existing then existing else existing + [incoming[0]], incoming[1..])
  }

  method MergeOffers(existing: seq<bytes>, incoming: seq<bytes>) returns (merged: seq<bytes>)
    ensures merged == Merge(existing, incoming)
  {
    merged := existing;
    var seen := set address | address in merged;
    for i := 0 to |incoming|
      invariant Merge(merged, incoming[i..]) == Merge(existing, incoming)
      invariant seen == set address | address in merged
    {
      if incoming[i] !in seen {
        seen := seen + {incoming[i]};
        merged := merged + [incoming[i]];
      }
    }
  }

  /** What a frame offers this machine, if its type is one of those asked for. */
  function OfferIn(frame: bytes, mac: bytes, types: Option<set<byte>>): Option<bytes> {
    var reply := FromFrame(frame);
    if reply.None? || reply.value.clientMac != mac then None
    else if types.Some? && (reply.value.messageType.None? || reply.value.messageType.value !in types.value) then None
    else Some(reply.value.offeredIp)
  }

  function OffersIn(frames: seq<bytes>, mac: bytes, types: Option<set<byte>>): seq<bytes> {
    if |frames| == 0 then []
    else
      var before := OffersIn(frames[..|frames| - 1], mac, types);
      var offer := OfferIn(frames[|frames| - 1], mac, types);
      if offer.Some? then Merge(before, [offer.value]) else before
  }

  method OffersFromFrames(frames: seq<bytes>, mac: bytes, types: Option<set<byte>>) returns (found: seq<bytes>)
    ensures found == OffersIn(frames, mac, types)
  {
    found := [];
    for i := 0 to |frames|
      invariant found == OffersIn(frames[..i], mac, types)
    {
      assert frames[..i + 1][..i] == frames[..i];
      var offer := OfferIn(frames[i], mac, types);
      if offer.Some? {
        found := MergeOffers(found, [offer.value]);
      }
    }
    assert frames[..|frames|] == frames;
  }

  predicate Distinct(s: seq<bytes>) {
    forall i, j :: 0 <= i < j < |s| ==> s[i] != s[j]
  }

  function WithOffer(before: seq<bytes>, offer: Option<bytes>): seq<bytes> {
    if offer.None? || offer.value in before then before else before + [offer.value]
  }

  /** One more frame, incrementally. */
  lemma OneMoreFrame(frames: seq<bytes>, frame: bytes, mac: bytes, types: Option<set<byte>>)
    ensures OffersIn(frames + [frame], mac, types)
            == WithOffer(OffersIn(frames, mac, types), OfferIn(frame, mac, types))
  {
    assert (frames + [frame])[..|frames|] == frames;
    var before, offer := OffersIn(frames, mac, types), OfferIn(frame, mac, types);
    if offer.Some? {
      var next := WithOffer(before, offer);
      assert Merge(before, [offer.value]) == Merge(next, [offer.value][1..]);
      assert Merge(next, []) == next;
    }
  }

  /** Some of the frames offers this address. */
  predicate OfferedIn(frames: seq<bytes>, mac: bytes, types: Option<set<byte>>, address: bytes) {
    exists i :: 0 <= i < |frames| && OfferIn(frames[i], mac, types) == Some(address)
  }

  lemma OfferedInOneMore(frames: seq<bytes>, last: bytes, mac: bytes, types: Option<set<byte>>, a: bytes)
    ensures OfferedIn(frames + [last], mac, types, a)
            <==> OfferedIn(frames, mac, types, a) || OfferIn(last, mac, types) == Some(a)
  {
    hide OfferIn;
    var all := frames + [last];
    if OfferedIn(frames, mac, types, a) {
      var i :| 0 <= i < |frames| && OfferIn(frames[i], mac, types) == Some(a);
      assert all[i] == frames[i];
    }
    assert all[|frames|] == last;
  }

  /** Every address offered is listed, nothing else is, and none twice. */
  lemma {:induction false} OffersAreListedOnce(frames: seq<bytes>, mac: bytes, types: Option<set<byte>>)
    ensures Distinct(OffersIn(frames, mac, types))
    ensures forall a :: a in OffersIn(frames, mac, types) <==> OfferedIn(frames, mac, types, a)
    decreases |frames|
  {
    if |frames| == 0 {
    } else {
      var init, last := frames[..|frames| - 1], frames[|frames| - 1];
      OffersAreListedOnce(init, mac, types);
      OneMoreFrame(init, last, mac, types);
      assert frames == init + [last];
      hide OffersIn, OfferIn, OfferedIn;
      forall a ensures a in OffersIn(frames, mac, types) <==> OfferedIn(frames, mac, types, a) {
        OfferedInOneMore(init, last, mac, types, a);
      }
    }
  }

  /** A reply whose declared type is one of those asked for. */
  predicate OfferedAs(frames: seq<bytes>, mac: bytes, types: set<byte>, address: bytes) {
    exists i :: && 0 <= i < |frames| && OfferIn(frames[i], mac, None) == Some(address)
                && FromFrame(frames[i]).value.messageType.Some? && FromFrame(frames[i]).value.messageType.value in types
  }

  lemma {:induction false} DistinctCount(s: seq<bytes>)
    requires Distinct(s)
    ensures |set a | a in s| == |s|
  {
    if |s| == 0 {
    } else {
      var init, last := s[..|s| - 1], s[|s| - 1];
      DistinctCount(init);
      assert s == init + [last];
      assert (set a | a in s) == (set a | a in init) + {last};
    }
  }

  lemma FewerAddresses(some: seq<bytes>, all: seq<bytes>)
    requires Distinct(some) && Distinct(all) && forall a :: a in some ==> a in all
    ensures |some| <= |all|
  {
    DistinctCount(some);
    DistinctCount(all);
    var few, many := set a | a in some, set a | a in all;
    assert many == few + (many - few);
  }

  /** Narrowing to some message types can only return fewer addresses: exactly those a reply of such a type offers. */
  lemma NarrowingOnlyRemoves(frames: seq<bytes>, mac: bytes, types: set<byte>)
    ensures forall a :: a in OffersIn(frames, mac, Some(types)) <==> OfferedAs(frames, mac, types, a)
    ensures forall a :: a in OffersIn(frames, mac, Some(types)) ==> a in OffersIn(frames, mac, None)
    ensures |OffersIn(frames, mac, Some(types))| <= |OffersIn(frames, mac, None)|
  {
    OffersAreListedOnce(frames, mac, Some(types));
    OffersAreListedOnce(frames, mac, None);
    hide FromFrame, OffersIn;
    forall a ensures OfferedIn(frames, mac, Some(types), a) <==> OfferedAs(frames, mac, types, a) {
      if OfferedIn(frames, mac, Some(types), a) {
        var i :| 0 <= i < |frames| && OfferIn(frames[i], mac, Some(types)) == Some(a);
        assert OfferIn(frames[i], mac, None) == Some(a);
      }
      if OfferedAs(frames, mac, types, a) {
        var i :| && 0 <= i < |frames| && OfferIn(frames[i], mac, None) == Some(a)
                 && FromFrame(frames[i]).value.messageType.Some?
                       && FromFrame(frames[i]).value.messageType.value in types;
        assert OfferIn(frames[i], mac, Some(types)) == Some(a);
      }
    }
    assert forall a :: OfferedAs(frames, mac, types, a) ==> OfferedIn(frames, mac, None, a);
    FewerAddresses(OffersIn(frames, mac, Some(types)), OffersIn(frames, mac, None));
  }

  /** The frame is a server's offer of this address to this client, under a type asked for. */
  predicate Offers(f: ServerFrame, mac: bytes, types: Option<set<byte>>, address: bytes)
    requires ValidFrame(f)
  {
    && FromServer(f.h, f.source, f.destination) && IsOffer(f.message)
    && f.message.chaddr[..6] == mac && f.message.yiaddr == address
    && (types.None? || (TypeIn(f.vendor).Some? && TypeIn(f.vendor).value in types.value))
  }

  /**
   * A captured message offers this machine its address if and only if it is addressed to this machine's hardware
   * address.
   */
  lemma OfferIsForItsClient(f: ServerFrame, mac: bytes, types: Option<set<byte>>, address: bytes)
    requires ValidFrame(f)
    ensures OfferIn(EncodeFrame(f), mac, types) == Some(address) <==> Offers(f, mac, types, address)
  {
    ReplyIsRead(f);
    hide FromFrame, EncodeFrame;
  }

  function EncodeFrames(captured: seq<ServerFrame>): seq<bytes>
    requires forall i :: 0 <= i < |captured| ==> ValidFrame(captured[i])
  {
    seq(|captured|, i requires 0 <= i < |captured| => EncodeFrame(captured[i]))
  }

  /** So the addresses listed are exactly those some captured message offers this client. */
  lemma OffersAreTheClients(captured: seq<ServerFrame>, mac: bytes, types: Option<set<byte>>, address: bytes)
    requires forall i :: 0 <= i < |captured| ==> ValidFrame(captured[i])
    ensures address in OffersIn(EncodeFrames(captured), mac, types)
       <==> exists i :: 0 <= i < |captured| && Offers(captured[i], mac, types, address)
  {
    var frames := EncodeFrames(captured);
    OffersAreListedOnce(frames, mac, types);
    forall i | 0 <= i < |captured|
      ensures OfferIn(frames[i], mac, types) == Some(address) <==> Offers(captured[i], mac, types, address)
    {
      OfferIsForItsClient(captured[i], mac, types, address);
    }
    hide OffersIn, OfferIn, Offers, EncodeFrame;
    if OfferedIn(frames, mac, types, address) {
      var i :| 0 <= i < |frames| && OfferIn(frames[i], mac, types) == Some(address);
      assert Offers(captured[i], mac, types, address);
    }
    if i :| 0 <= i < |captured| && Offers(captured[i], mac, types, address) {
      assert OfferIn(frames[i], mac, types) == Some(address);
    }
  }

  /** More frames only add addresses at the end: each stands where it was first seen. */
  lemma {:induction false} OffersOnlyGrow(frames: seq<bytes>, more: seq<bytes>, mac: bytes, types: Option<set<byte>>)
    ensures OffersIn(frames, mac, types) <= OffersIn(frames + more, mac, types)
    decreases |more|
  {
    if |more| == 0 {
      assert frames + more == frames;
    } else {
      OneMoreFrame(frames, more[0], mac, types);
      OffersOnlyGrow(frames + [more[0]], more[1..], mac, types);
      assert frames + [more[0]] + more[1..] == frames + more;
    }
  }

  // ---------------------------------------------------------------- the quiet rule

  function GoneQuiet(lastSeen: Option<real>, now: real, started: real, timeout: real, settle: real): bool {
    if now >= started + timeout then true
    else if lastSeen.None? then false
    else now >= lastSeen.value + settle
  }

  /** When the waiting thread next looks. */
  function WakeTime(lastSeen: Option<real>, started: real, timeout: real, settle: real): real {
    var deadline := started + timeout;
    if lastSeen.None? then deadline
    else if lastSeen.value + settle < deadline then lastSeen.value + settle
    else deadline
  }

  /**
   * The wake time is the first moment the rule turns true if nothing new arrives, never after the deadline; once an
   * address has been seen, a later sighting never brings it forward.
   */
  lemma WakesAtTheFirstQuietMoment(lastSeen: Option<real>, later: real, started: real, timeout: real, settle: real)
    ensures var wake := WakeTime(lastSeen, started, timeout, settle);
            && (forall now: real :: GoneQuiet(lastSeen, now, started, timeout, settle) <==> now >= wake)
            && wake <= started + timeout
            && (lastSeen.Some? && later >= lastSeen.value ==> WakeTime(Some(later), started, timeout, settle) >= wake)
  {
    var wake := WakeTime(lastSeen, started, timeout, settle);
    forall now: real ensures GoneQuiet(lastSeen, now, started, timeout, settle) <==> now >= wake {
    }
  }

  /** What the waiting thread finds each time it holds the lock. */
  datatype Look = Look(now: real, finished: bool, lastSeen: Option<real>)

  /** Stops at the first look that is finished or quiet; before that it always sleeps, and to the wake time exactly. */
  method WaitForQuiet(looks: seq<Look>, started: real, timeout: real, settle: real) returns (sleeps: seq<real>)
    ensures |sleeps| <= |looks|
    ensures forall i :: 0 <= i < |sleeps| ==>
              && !looks[i].finished
              && !GoneQuiet(looks[i].lastSeen, looks[i].now, started, timeout, settle)
              && sleeps[i] > 0.0
              && GoneQuiet(looks[i].lastSeen, looks[i].now + sleeps[i], started, timeout, settle)
              && forall t: real :: looks[i].now <= t < looks[i].now + sleeps[i] ==>
                    !GoneQuiet(looks[i].lastSeen, t, started, timeout, settle)
    ensures |sleeps| < |looks| ==>
              looks[|sleeps|].finished || GoneQuiet(looks[|sleeps|].lastSeen, looks[|sleeps|].now, started, timeout,
                settle)
  {
    sleeps := [];
    var deadline := started + timeout;
    while |sleeps| < |looks|
      invariant |sleeps| <= |looks|
      invariant forall i :: 0 <= i < |sleeps| ==>
                  && !looks[i].finished
                  && !GoneQuiet(looks[i].lastSeen, looks[i].now, started, timeout, settle)
                  && sleeps[i] > 0.0
                  && GoneQuiet(looks[i].lastSeen, looks[i].now + sleeps[i], started, timeout, settle)
                  && forall t: real :: looks[i].now <= t < looks[i].now + sleeps[i] ==>
                        !GoneQuiet(looks[i].lastSeen, t, started, timeout, settle)
    {
      var look := looks[|sleeps|];
      if look.finished || GoneQuiet(look.lastSeen, look.now, started, timeout, settle) {
        return;
      }
      var wake := if look.lastSeen.None? || look.lastSeen.value + settle >= deadline then deadline
        else look.lastSeen.value + settle;
      sleeps := sleeps + [if wake - look.now > 0.0 then wake - look.now else 0.0];
    }
  }

  // ---------------------------------------------------------------- the session

  datatype Settings = Settings(mac: bytes, started: real, timeout: real, settle: real)

  datatype Record = Record(found: seq<bytes>, seen: set<bytes>, lastSeen: Option<real>)

  function Absorbed(r: Record, frame: bytes, now: real, mac: bytes): Record {
    var offer := OfferIn(frame, mac, None);
    if offer.None? || offer.value in r.seen then r
    else Record(r.found + [offer.value], r.seen + {offer.value}, Some(now))
  }

  ghost predicate IsRecordOf(r: Record, frames: seq<bytes>, mac: bytes) {
    && r.found == OffersIn(frames, mac, None)
    && Distinct(r.found)
    && r.seen == set a | a in r.found
  }

  /** The constant-time step keeps the record equal to the fold over every frame absorbed. */
  lemma AbsorbedIsTheFold(r: Record, frames: seq<bytes>, frame: bytes, now: real, mac: bytes)
    requires IsRecordOf(r, frames, mac)
    ensures IsRecordOf(Absorbed(r, frame, now, mac), frames + [frame], mac)
    ensures r.found <= Absorbed(r, frame, now, mac).found
  {
    OneMoreFrame(frames, frame, mac, None);
    OffersAreListedOnce(frames + [frame], mac, None);
  }

  /**
   * Where a thread inside result() stands: past the unlocked test that nothing is recorded; asleep until a time,
   * unless more than `count` addresses are found first, after so many sleeps since it saw `first` addresses; past
   * its wait, the one logged under this number; or about to read what is recorded.
   */
  datatype Asker =
    | Waiting
    | Sleeping(until: real, count: nat, sleeps: nat, first: nat)
    | Woken(wake: nat)
    | Reading

  /** Where the reader thread stands: before its loop's test, inside one receive, out of the loop, or done. */
  datatype Reader = Checking | Receiving | Leaving | Ended

  /** The end of one wait: when, after how many frames, and whether the session had finished. */
  datatype Wake = Wake(now: real, count: nat, finished: bool)

  /** The fields, the threads, and the history they are judged by. */
  datatype Session = Session(frames: seq<bytes>, times: seq<real>, clock: real, record: Record, reader: Reader,
                             stopping: bool, finished: bool, recorded: Option<seq<bytes>>, askers: map<nat, Asker>,
                             wakes: seq<Wake>, answers: seq<seq<bytes>>)

  function NewSession(cfg: Settings): Session {
    Session([], [], cfg.started, Record([], {}, None), Checking, false, false, None, map[], [], [])
  }

  datatype SessionEvent =
    | Checked(now: real)
    | FrameArrived(frame: bytes, now: real)
    | NothingArrived
    | ReaderEnded
    | StopAsked
    | Stopped
    | Asked(id: nat)
    | Looked(id: nat, now: real)
    | Stored(id: nat)
    | Returned(id: nat)

  /** A sleeping thread looks again at its time, or once notified of an address or of the end. */
  predicate Looks(a: Asker, s: Session, now: real) {
    a == Waiting || (a.Sleeping? && (s.finished || |s.record.found| > a.count || now >= a.until))
  }

  /** The clock never runs backwards; each thread takes its own steps in order. */
  predicate SessionEnabled(s: Session, e: SessionEvent) {
    match e
    case Checked(now) => s.reader == Checking && now >= s.clock
    case FrameArrived(_, now) => s.reader == Receiving && now >= s.clock
    case NothingArrived => s.reader == Receiving
    case ReaderEnded => s.reader == Leaving
    case StopAsked => true
    case Stopped => s.stopping
    case Asked(id) => id !in s.askers
    case Looked(id, now) => id in s.askers && Looks(s.askers[id], s, now) && now >= s.clock
    case Stored(id) => id in s.askers && s.askers[id].Woken?
    case Returned(id) => id in s.askers && s.askers[id] == Reading && s.recorded.Some?
  }

  function IsOver(s: Session, now: real, cfg: Settings): bool {
    s.finished || GoneQuiet(s.record.lastSeen, now, cfg.started, cfg.timeout, cfg.settle)
  }

  function Asleep(a: Asker, s: Session, cfg: Settings): Asker {
    var count := |s.record.found|;
    Sleeping(WakeTime(s.record.lastSeen, cfg.started, cfg.timeout, cfg.settle), count,
             if a.Sleeping? then a.sleeps + 1 else 1, if a.Sleeping? then a.first else count)
  }

  function SessionStep(s: Session, e: SessionEvent, cfg: Settings): Session
    requires SessionEnabled(s, e)
  {
    match e
    case Checked(now) =>
      s.(clock := now, reader := if s.stopping || now >= cfg.started + cfg.timeout then Leaving else Receiving)
    case FrameArrived(frame, now) =>
      s.(frames := s.frames + [frame], times := s.times + [now], clock := now, reader := Checking,
         record := Absorbed(s.record, frame, now, cfg.mac))
    case NothingArrived => s.(reader := Checking)
    case ReaderEnded => s.(reader := Ended, finished := true)
    case StopAsked => s.(stopping := true)
    case Stopped => s.(finished := true)
    case Asked(id) => s.(askers := s.askers[id := if s.recorded.None? then Waiting else Reading])
    case Looked(id, now) =>
      if IsOver(s, now, cfg) then
        s.(clock := now, askers := s.askers[id := Woken(|s.wakes|)],
           wakes := s.wakes + [Wake(now, |s.frames|, s.finished)])
      else s.(clock := now, askers := s.askers[id := Asleep(s.askers[id], s, cfg)])
    case Stored(id) => s.(recorded := Some(s.record.found), askers := s.askers[id := Reading])
    case Returned(id) => s.(askers := s.askers - {id}, answers := s.answers + [s.recorded.value])
  }

  class DhcpSession {
    const cfg: Settings
    var found: seq<bytes>
    var seen: set<bytes>
    var lastSeen: Option<real>
    var stopping: bool
    var finished: bool
    var recorded: Option<seq<bytes>>
    ghost var reader: Reader
    ghost var frames: seq<bytes>
    ghost var times: seq<real>
    ghost var clock: real
    ghost var askers: map<nat, Asker>
    ghost var wakes: seq<Wake>
    ghost var answers: seq<seq<bytes>>

    ghost function View(): Session
      reads this
    {
      Session(frames, times, clock, Record(found, seen, lastSeen), reader, stopping, finished, recorded, askers,
              wakes, answers)
    }

    constructor (cfg: Settings)
      ensures View() == NewSession(cfg) && this.cfg == cfg
    {
      this.cfg := cfg;
      found, seen, lastSeen, stopping, finished, recorded := [], {}, None, false, false, None;
      reader := Checking;
      frames, times, clock, askers, wakes, answers := [], [], cfg.started, map[], [], [];
    }

    /** The reader's loop test: whether it receives once more. */
    method Check(now: real) returns (again: bool)
      requires SessionEnabled(View(), Checked(now))
      modifies this
      ensures View() == SessionStep(old(View()), Checked(now), cfg)
      ensures again <==> View().reader == Receiving
    {
      clock := now;
      if stopping {
        reader := Leaving;
        return false;
      }
      var remaining := cfg.started + cfg.timeout - now;
      again := remaining > 0.0;
      reader := if again then Receiving else Leaving;
    }

    /** A receive that brings nothing. */
    ghost method Nothing()
      requires SessionEnabled(View(), NothingArrived)
      modifies this
      ensures View() == SessionStep(old(View()), NothingArrived, cfg)
    {
      reader := Checking;
    }

    method Absorb(frame: bytes, now: real)
      requires SessionEnabled(View(), FrameArrived(frame, now))
      modifies this
      ensures View() == SessionStep(old(View()), FrameArrived(frame, now), cfg)
    {
      hide FromFrame;
      frames, times, clock, reader := frames + [frame], times + [now], now, Checking;
      var reply := FromFrame(frame);
      if reply.None? || reply.value.clientMac != cfg.mac {
        return;
      }
      if reply.value.offeredIp in seen {
        return;
      }
      seen := seen + {reply.value.offeredIp};
      found := found + [reply.value.offeredIp];
      lastSeen := Some(now);
    }

    /** The reader's last act. */
    method ReaderEnds()
      requires SessionEnabled(View(), ReaderEnded)
      modifies this
      ensures View() == SessionStep(old(View()), ReaderEnded, cfg)
    {
      finished := true;
      reader := Ended;
    }

    /** stop() begins; it then waits for the reader, but not for ever. */
    method StopBegins()
      modifies this
      ensures View() == SessionStep(old(View()), StopAsked, cfg)
    {
      stopping := true;
    }

    method StopEnds()
      requires SessionEnabled(View(), Stopped)
      modifies this
      ensures View() == SessionStep(old(View()), Stopped, cfg)
    {
      finished := true;
    }

    /** result() tests, outside the lock, whether it has to wait. */
    method Ask(asker: nat) returns (waits: bool)
      requires SessionEnabled(View(), Asked(asker))
      modifies this
      ensures View() == SessionStep(old(View()), Asked(asker), cfg)
      ensures waits <==> recorded.None?
    {
      waits := recorded.None?;
      askers := askers[asker := if recorded.None? then Waiting else Reading];
    }

    /** One pass of the waiting loop, under the lock: whether the wait is over. */
    method Look(asker: nat, now: real) returns (over: bool)
      requires SessionEnabled(View(), Looked(asker, now))
      modifies this
      ensures View() == SessionStep(old(View()), Looked(asker, now), cfg)
      ensures over <==> View().askers[asker].Woken?
    {
      over := finished || GoneQuiet(lastSeen, now, cfg.started, cfg.timeout, cfg.settle);
      ghost var before := View();
      clock := now;
      if over {
        askers := askers[asker := Woken(|wakes|)];
        wakes := wakes + [Wake(now, |frames|, finished)];
      } else {
        askers := askers[asker := Asleep(before.askers[asker], before, cfg)];
      }
    }

    /** What is found is stored, under the lock, whatever was stored meanwhile. */
    method Store(asker: nat)
      requires SessionEnabled(View(), Stored(asker))
      modifies this
      ensures View() == SessionStep(old(View()), Stored(asker), cfg)
    {
      recorded := Some(found);
      askers := askers[asker := Reading];
    }

    /** What is stored is returned. */
    method Return(asker: nat) returns (offers: seq<bytes>)
      requires SessionEnabled(View(), Returned(asker))
      modifies this
      ensures View() == SessionStep(old(View()), Returned(asker), cfg)
      ensures View().answers == old(View().answers) + [offers]
    {
      offers := recorded.value;
      askers := askers - {asker};
      answers := answers + [offers];
    }
  }

  /** One offers() iterator over a session. */
  class OfferIterator {
    const session: DhcpSession
    var index: nat
    var stopped: bool
    ghost var yielded: seq<bytes>

    ghost predicate Valid()
      reads this
    {
      !stopped ==> index == |yielded|
    }

    constructor (session: DhcpSession)
      ensures Valid() && this.session == session && Iteration(yielded, stopped) == NEW_ITERATION
    {
      this.session := session;
      index, stopped, yielded := 0, false, [];
    }

    /** The next address, or the end of the iteration; it waits until one of the two is due. */
    method Next() returns (address: Option<bytes>)
      requires Valid() && IsDue(Iteration(yielded, stopped), session.View())
      modifies this
      ensures Valid()
      ensures Iteration(yielded, stopped) == Pulled(old(Iteration(yielded, stopped)), session.found)
      ensures address == if stopped then None else Some(yielded[|yielded| - 1])
    {
      address := if index < |session.found| then Some(session.found[index]) else None;
      index := index + 1;
      if address.None? {
        stopped := true;
      } else {
        yielded := yielded + [address.value];
      }
    }
  }

  datatype Iteration = Iteration(yielded: seq<bytes>, stopped: bool)

  const NEW_ITERATION := Iteration([], false)

  predicate IsDue(it: Iteration, s: Session) {
    !it.stopped && (|it.yielded| < |s.record.found| || s.finished)
  }

  function Pulled(it: Iteration, found: seq<bytes>): Iteration {
    if |it.yielded| < |found| then it.(yielded := it.yielded + [found[|it.yielded|]]) else it.(stopped := true)
  }
}
