/** What holds of every DHCP watch: what the record says, when a wait ends, and how long a result lasts. */
module DhcpTheorems {
  import opened Bytes
  import opened Bootp
  import opened Dhcp

  // ---------------------------------------------------------------- what a session keeps

  /** The i-th frame offers an address no frame before it offered. */
  predicate Brings(frames: seq<bytes>, mac: bytes, i: int) {
    0 <= i < |frames| && OfferIn(frames[i], mac, None).Some?
      && !OfferedIn(frames[..i], mac, None, OfferIn(frames[i], mac, None).value)
  }

  predicate InOrder(times: seq<real>, clock: real) {
    && (forall i, j :: 0 <= i < j < |times| ==> times[i] <= times[j])
    && (forall i :: 0 <= i < |times| ==> times[i] <= clock)
  }

  /** The last sighting is the time of the last frame to bring an address, if one did. */
  ghost predicate IsLastSighting(lastSeen: Option<real>, frames: seq<bytes>, times: seq<real>, mac: bytes)
    requires |times| == |frames|
  {
    && (lastSeen.None? ==> forall i :: !Brings(frames, mac, i))
    && (lastSeen.Some? ==> && (exists i :: Brings(frames, mac, i) && times[i] == lastSeen.value)
                           && (forall i :: Brings(frames, mac, i) ==> times[i] <= lastSeen.value))
  }

  /** Among the first `count` frames some brought an address, and none within `settle` before `now`. */
  ghost predicate WasQuiet(frames: seq<bytes>, times: seq<real>, mac: bytes, settle: real, count: nat, now: real)
    requires |times| == |frames|
  {
    && (exists i :: i < count && Brings(frames, mac, i))
    && (forall i :: i < count && Brings(frames, mac, i) ==> times[i] + settle <= now)
  }

  /** A wait ends when the session has finished, at its deadline, or once the exchange has gone quiet. */
  ghost predicate RightlyEnded(w: Wake, s: Session, cfg: Settings)
    requires |s.times| == |s.frames|
  {
    && w.count <= |s.frames|
    && (|| (w.finished && s.finished)
        || w.now >= cfg.started + cfg.timeout
        || WasQuiet(s.frames, s.times, cfg.mac, cfg.settle, w.count, w.now))
  }

  /** Holds every address offered before some wait ended. */
  ghost predicate CoversAWake(offers: seq<bytes>, s: Session, cfg: Settings) {
    exists w :: w in s.wakes && w.count <= |s.frames| && OffersIn(s.frames[..w.count], cfg.mac, None) <= offers
  }

  ghost predicate HistoryIsSound(s: Session, cfg: Settings) {
    && IsRecordOf(s.record, s.frames, cfg.mac)
    && |s.times| == |s.frames|
    && InOrder(s.times, s.clock)
    && IsLastSighting(s.record.lastSeen, s.frames, s.times, cfg.mac)
    && forall w :: w in s.wakes ==> RightlyEnded(w, s, cfg)
  }

  /**
   * A sleeper slept at most once more than addresses came since its first look; its sleep ends by the deadline and, if
   * no more come, at the first quiet moment.
   */
  predicate SleepsRightly(a: Asker, s: Session, cfg: Settings)
    requires a.Sleeping?
  {
    && a.first <= a.count <= |s.record.found|
    && a.sleeps <= 1 + a.count - a.first
    && a.until <= cfg.started + cfg.timeout
    && (a.count == |s.record.found| ==> a.until == WakeTime(s.record.lastSeen, cfg.started, cfg.timeout, cfg.settle))
  }

  predicate AskersAreSound(s: Session, cfg: Settings) {
    forall id :: id in s.askers ==>
      && (s.askers[id].Sleeping? ==> SleepsRightly(s.askers[id], s, cfg))
      && (s.askers[id].Woken? ==> s.askers[id].wake < |s.wakes|)
      && (s.askers[id].Reading? ==> s.recorded.Some?)
  }

  /** What is recorded, and what was returned, covers the end of some wait; answers only ever extend earlier ones. */
  ghost predicate AnswersAreSound(s: Session, cfg: Settings) {
    && (s.recorded.Some? ==> s.recorded.value <= s.record.found && CoversAWake(s.recorded.value, s, cfg))
    && (|s.answers| > 0 ==> s.recorded.Some? && s.answers[|s.answers| - 1] <= s.recorded.value)
    && (forall a :: a in s.answers ==> CoversAWake(a, s, cfg))
    && (forall i, j :: 0 <= i < j < |s.answers| ==> s.answers[i] <= s.answers[j])
  }

  /**
   * Only the last frame absorbed can be from the deadline or later; the reader ends by finishing, and nothing finishes
   * the session before its deadline but a stop.
   */
  predicate ReaderIsSound(s: Session, cfg: Settings) {
    && (forall i :: 0 <= i < |s.times| - 1 ==> s.times[i] < cfg.started + cfg.timeout)
    && (s.reader == Receiving ==> forall i :: 0 <= i < |s.times| ==> s.times[i] < cfg.started + cfg.timeout)
    && (s.reader == Ended ==> s.finished)
    && (s.finished || s.reader == Leaving ==> s.stopping || s.clock >= cfg.started + cfg.timeout)
  }

  ghost predicate SessionSound(s: Session, cfg: Settings) {
    HistoryIsSound(s, cfg) && ReaderIsSound(s, cfg) && AskersAreSound(s, cfg) && AnswersAreSound(s, cfg)
  }

  lemma ReaderAfter(s: Session, e: SessionEvent, cfg: Settings)
    requires InOrder(s.times, s.clock) && ReaderIsSound(s, cfg) && SessionEnabled(s, e)
    ensures ReaderIsSound(SessionStep(s, e, cfg), cfg)
  {
    hide IsOver, Absorbed, Asleep;
  }

  lemma BringsInOneMore(frames: seq<bytes>, frame: bytes, mac: bytes)
    ensures forall i :: i < |frames| ==> (Brings(frames + [frame], mac, i) <==> Brings(frames, mac, i))
    ensures Brings(frames + [frame], mac, |frames|)
       <==> OfferIn(frame, mac, None).Some? && OfferIn(frame, mac, None).value !in OffersIn(frames, mac, None)
  {
    hide OfferIn, OffersIn;
    var all := frames + [frame];
    OffersAreListedOnce(frames, mac, None);
    assert all[..|frames|] == frames;
    assert forall i :: 0 <= i < |frames| ==> all[..i] == frames[..i] && all[i] == frames[i];
    hide OfferedIn;
  }

  lemma LastSightingStep(r: Record, frames: seq<bytes>, frame: bytes, now: real, mac: bytes)
    requires IsRecordOf(r, frames, mac)
    ensures Absorbed(r, frame, now, mac).lastSeen
         == if Brings(frames + [frame], mac, |frames|) then Some(now) else r.lastSeen
    ensures forall i ::
              Brings(frames + [frame], mac, i)
              <==> Brings(frames, mac, i) || (i == |frames| && Brings(frames + [frame], mac, i))
    ensures forall i :: Brings(frames, mac, i) ==> 0 <= i < |frames|
  {
    BringsInOneMore(frames, frame, mac);
    assert forall i :: Brings(frames + [frame], mac, i) ==> 0 <= i <= |frames|;
  }

  lemma InOrderStep(times: seq<real>, clock: real, now: real)
    requires InOrder(times, clock) && now >= clock
    ensures InOrder(times + [now], now)
  {
  }

  /** A sighting stays the last one when the next frame brings nothing, and gives way to it when it does. */
  lemma SightingGivesWay(lastSeen: Option<real>, frames: seq<bytes>, times: seq<real>, frame: bytes, now: real,
                         mac: bytes)
    requires |times| == |frames| && IsLastSighting(lastSeen, frames, times, mac) && forall i :: 0 <= i < |times| ==>
             times[i] <= now
    requires forall i ::
               Brings(frames + [frame], mac, i)
               <==> Brings(frames, mac, i) || (i == |frames| && Brings(frames + [frame], mac, i))
    requires forall i :: Brings(frames, mac, i) ==> 0 <= i < |frames|
    ensures IsLastSighting(if Brings(frames + [frame], mac, |frames|) then Some(now) else lastSeen,
                           frames + [frame], times + [now], mac)
  {
    hide Brings;
    var all, whens := frames + [frame], times + [now];
    if Brings(all, mac, |frames|) {
      assert whens[|frames|] == now;
    } else if lastSeen.Some? {
      var i :| Brings(frames, mac, i) && times[i] == lastSeen.value;
      assert Brings(all, mac, i) && whens[i] == times[i];
    }
  }

  /** A frame moves the last sighting exactly when it brings an address. */
  lemma SightingMoves(r: Record, frames: seq<bytes>, times: seq<real>, clock: real, frame: bytes, now: real, mac: bytes)
    requires IsRecordOf(r, frames, mac) && |times| == |frames| && InOrder(times, clock) && now >= clock
    requires IsLastSighting(r.lastSeen, frames, times, mac)
    ensures IsLastSighting(Absorbed(r, frame, now, mac).lastSeen, frames + [frame], times + [now], mac)
    ensures InOrder(times + [now], now)
  {
    InOrderStep(times, clock, now);
    assert forall i :: 0 <= i < |times| ==> times[i] <= now;
    hide *;
    LastSightingStep(r, frames, frame, now, mac);
    SightingGivesWay(r.lastSeen, frames, times, frame, now, mac);
  }

  /** A wait that ended rightly still did once another frame has come. */
  lemma StillRightlyEnded(w: Wake, s: Session, frame: bytes, now: real, cfg: Settings)
    requires |s.times| == |s.frames| && RightlyEnded(w, s, cfg)
    requires SessionEnabled(s, FrameArrived(frame, now))
    ensures RightlyEnded(w, SessionStep(s, FrameArrived(frame, now), cfg), cfg)
  {
    BringsInOneMore(s.frames, frame, cfg.mac);
    assert forall i :: Brings(s.frames, cfg.mac, i) ==> 0 <= i < |s.frames|;
    hide Brings, Absorbed;
  }

  lemma StillCovered(offers: seq<bytes>, s: Session, s': Session, cfg: Settings)
    requires CoversAWake(offers, s, cfg)
    requires s.frames <= s'.frames && forall w :: w in s.wakes ==> w in s'.wakes
    ensures CoversAWake(offers, s', cfg)
  {
    var w :| w in s.wakes && w.count <= |s.frames| && OffersIn(s.frames[..w.count], cfg.mac, None) <= offers;
    assert s'.frames[..w.count] == s.frames[..w.count];
  }

  lemma HistoryAfterFrame(s: Session, frame: bytes, now: real, cfg: Settings)
    requires HistoryIsSound(s, cfg) && SessionEnabled(s, FrameArrived(frame, now))
    ensures HistoryIsSound(SessionStep(s, FrameArrived(frame, now), cfg), cfg)
    ensures s.record.found <= SessionStep(s, FrameArrived(frame, now), cfg).record.found
  {
    var s' := SessionStep(s, FrameArrived(frame, now), cfg);
    AbsorbedIsTheFold(s.record, s.frames, frame, now, cfg.mac);
    SightingMoves(s.record, s.frames, s.times, s.clock, frame, now, cfg.mac);
    hide RightlyEnded, IsRecordOf, IsLastSighting, InOrder, Absorbed;
    forall w | w in s.wakes ensures RightlyEnded(w, s', cfg) {
      StillRightlyEnded(w, s, frame, now, cfg);
    }
  }

  /** The rule the waiting loop tests, over the history instead of the last sighting. */
  lemma QuietMeansQuiet(s: Session, now: real, cfg: Settings)
    requires HistoryIsSound(s, cfg) && IsOver(s, now, cfg)
    ensures RightlyEnded(Wake(now, |s.frames|, s.finished), s, cfg)
  {
    assert forall i :: Brings(s.frames, cfg.mac, i) ==> 0 <= i < |s.frames|;
    hide Brings, IsRecordOf, InOrder;
    if !s.finished && now < cfg.started + cfg.timeout {
      var i :| Brings(s.frames, cfg.mac, i) && s.times[i] == s.record.lastSeen.value;
      assert i < |s.frames|;
    }
  }

  lemma HistoryAfterLook(s: Session, id: nat, now: real, cfg: Settings)
    requires HistoryIsSound(s, cfg) && SessionEnabled(s, Looked(id, now))
    ensures HistoryIsSound(SessionStep(s, Looked(id, now), cfg), cfg)
  {
    var s' := SessionStep(s, Looked(id, now), cfg);
    if IsOver(s, now, cfg) {
      QuietMeansQuiet(s, now, cfg);
    }
    assert InOrder(s.times, now);
    assert forall w :: RightlyEnded(w, s, cfg) ==> RightlyEnded(w, s', cfg);
    hide RightlyEnded, IsRecordOf, IsLastSighting, IsOver, InOrder;
  }

  lemma HistoryAfterRest(s: Session, e: SessionEvent, cfg: Settings)
    requires HistoryIsSound(s, cfg) && SessionEnabled(s, e) && !e.FrameArrived? && !e.Looked?
    ensures HistoryIsSound(SessionStep(s, e, cfg), cfg)
  {
    var s' := SessionStep(s, e, cfg);
    assert forall w :: RightlyEnded(w, s, cfg) ==> RightlyEnded(w, s', cfg);
    hide RightlyEnded, IsRecordOf, IsLastSighting, InOrder;
  }

  /** A sleeper that is up again and not done has seen another address. */
  lemma SleepsAgain(a: Asker, s: Session, now: real, cfg: Settings)
    requires (a.Sleeping? ==> SleepsRightly(a, s, cfg)) && Looks(a, s, now) && !IsOver(s, now, cfg)
    ensures SleepsRightly(Asleep(a, s, cfg), s, cfg)
    ensures a.Sleeping? ==> |s.record.found| > a.count
    ensures var next := Asleep(a, s, cfg);
            && next.count == |s.record.found|
            && (a.Sleeping? ==> next.sleeps == a.sleeps + 1 && next.first == a.first)
            && (!a.Sleeping? ==> next.sleeps == 1 && next.first == next.count)
  {
    WakesAtTheFirstQuietMoment(s.record.lastSeen, 0.0, cfg.started, cfg.timeout, cfg.settle);
    hide GoneQuiet;
  }

  lemma AskersAfter(s: Session, e: SessionEvent, cfg: Settings)
    requires AskersAreSound(s, cfg) && SessionEnabled(s, e)
    ensures AskersAreSound(SessionStep(s, e, cfg), cfg)
  {
    hide IsOver, WakeTime;
    match e {
      case Looked(id, now) =>
        if !IsOver(s, now, cfg) {
          SleepsAgain(s.askers[id], s, now, cfg);
        }
      case FrameArrived(frame, now) =>
        assert Absorbed(s.record, frame, now, cfg.mac) == s.record
            || |Absorbed(s.record, frame, now, cfg.mac).found| == |s.record.found| + 1;
        hide Absorbed;
      case _ =>
    }
  }

  /** Answers stay sound while only the history grows. */
  lemma AnswersKept(s: Session, s': Session, cfg: Settings)
    requires AnswersAreSound(s, cfg) && s'.answers == s.answers && s'.recorded == s.recorded
    requires s.record.found <= s'.record.found && s.frames <= s'.frames && s.wakes <= s'.wakes
    ensures AnswersAreSound(s', cfg)
  {
    forall offers | CoversAWake(offers, s, cfg) ensures CoversAWake(offers, s', cfg) {
      StillCovered(offers, s, s', cfg);
    }
    hide CoversAWake;
  }

  /** What is found covers every wait that has ended. */
  lemma FoundCovers(s: Session, w: Wake, cfg: Settings)
    requires HistoryIsSound(s, cfg) && w in s.wakes
    ensures CoversAWake(s.record.found, s, cfg)
  {
    assert RightlyEnded(w, s, cfg);
    OffersOnlyGrow(s.frames[..w.count], s.frames[w.count..], cfg.mac, None);
    assert s.frames[..w.count] + s.frames[w.count..] == s.frames;
    hide OffersIn, RightlyEnded, Brings;
  }

  /** Answers stay sound when what is recorded gives way to more. */
  lemma AnswersExtended(s: Session, s': Session, cfg: Settings)
    requires AnswersAreSound(s, cfg) && s'.answers == s.answers && s'.frames == s.frames && s'.wakes == s.wakes
    requires s'.recorded == Some(s'.record.found) && CoversAWake(s'.record.found, s', cfg)
    requires s.recorded.Some? ==> s.recorded.value <= s'.record.found
    ensures AnswersAreSound(s', cfg)
  {
    assert forall offers :: CoversAWake(offers, s, cfg) ==> CoversAWake(offers, s', cfg);
    hide CoversAWake;
  }

  lemma AnswersAfterStore(s: Session, id: nat, cfg: Settings)
    requires SessionSound(s, cfg) && SessionEnabled(s, Stored(id))
    ensures AnswersAreSound(SessionStep(s, Stored(id), cfg), cfg)
  {
    var s' := SessionStep(s, Stored(id), cfg);
    FoundCovers(s, s.wakes[s.askers[id].wake], cfg);
    assert CoversAWake(s.record.found, s', cfg);
    assert s.recorded.Some? ==> s.recorded.value <= s.record.found;
    assert s'.recorded == Some(s.record.found) && s'.record == s.record;
    assert s'.answers == s.answers && s'.frames == s.frames && s'.wakes == s.wakes;
    hide *;
    AnswersExtended(s, s', cfg);
  }

  lemma AnswersAfterReturn(s: Session, id: nat, cfg: Settings)
    requires AnswersAreSound(s, cfg) && SessionEnabled(s, Returned(id))
    ensures AnswersAreSound(SessionStep(s, Returned(id), cfg), cfg)
  {
    var s' := SessionStep(s, Returned(id), cfg);
    assert forall offers :: CoversAWake(offers, s, cfg) ==> CoversAWake(offers, s', cfg);
    hide CoversAWake;
    var n := |s.answers|;
    forall i | 0 <= i < n ensures s.answers[i] <= s'.answers[n] {
      assert s.answers[i] <= s.answers[n - 1];
    }
  }

  lemma SessionStepIsSound(s: Session, e: SessionEvent, cfg: Settings)
    requires SessionSound(s, cfg) && SessionEnabled(s, e)
    ensures SessionSound(SessionStep(s, e, cfg), cfg)
    ensures s.record.found <= SessionStep(s, e, cfg).record.found
    ensures SessionStep(s, e, cfg).frames == s.frames + if e.FrameArrived? then [e.frame] else []
  {
    AskersAfter(s, e, cfg);
    ReaderAfter(s, e, cfg);
    match e {
      case FrameArrived(frame, now) =>
        HistoryAfterFrame(s, frame, now, cfg);
        AnswersKept(s, SessionStep(s, e, cfg), cfg);
      case Looked(id, now) =>
        HistoryAfterLook(s, id, now, cfg);
        AnswersKept(s, SessionStep(s, e, cfg), cfg);
      case Stored(id) =>
        HistoryAfterRest(s, e, cfg);
        AnswersAfterStore(s, id, cfg);
      case Returned(id) =>
        HistoryAfterRest(s, e, cfg);
        AnswersAfterReturn(s, id, cfg);
      case _ =>
        HistoryAfterRest(s, e, cfg);
        AnswersKept(s, SessionStep(s, e, cfg), cfg);
    }
    hide HistoryIsSound, ReaderIsSound, AskersAreSound, AnswersAreSound, Absorbed;
  }

  /** What a session has found of captured messages is what they offer its own client, and nothing else. */
  lemma SessionFindsItsOffers(s: Session, captured: seq<ServerFrame>, cfg: Settings, address: bytes)
    requires SessionSound(s, cfg) && (forall i :: 0 <= i < |captured| ==> ValidFrame(captured[i]))
    requires s.frames == EncodeFrames(captured)
    ensures address in s.record.found
            <==> exists i :: 0 <= i < |captured| && Offers(captured[i], cfg.mac, None, address)
  {
    OffersAreTheClients(captured, cfg.mac, None, address);
    hide Offers, EncodeFrames, OffersIn, AnswersAreSound, AskersAreSound, ReaderIsSound, IsLastSighting, RightlyEnded;
  }

  // ---------------------------------------------------------------- how long a recorded result lasts

  /** The threads past the test that nothing is recorded which have not yet stored theirs. */
  function StillAsking(s: Session): set<nat> {
    set id | id in s.askers && !s.askers[id].Reading?
  }

  function RunFrom(s: Session, events: seq<SessionEvent>, cfg: Settings): Option<Session>
    decreases |events|
  {
    if |events| == 0 then Some(s)
    else if SessionEnabled(s, events[0]) then RunFrom(SessionStep(s, events[0], cfg), events[1..], cfg)
    else None
  }

  /** Once a result is recorded nobody starts to wait any more, and only somebody who already did replaces it. */
  lemma OnlyEarlierAskersReplace(s: Session, e: SessionEvent, cfg: Settings)
    requires SessionEnabled(s, e) && s.recorded.Some?
    ensures var s' := SessionStep(s, e, cfg);
            && s'.recorded.Some?
            && StillAsking(s') <= StillAsking(s)
            && (s'.recorded != s.recorded ==> e.Stored? && e.id in StillAsking(s))
  {
  }

  /** The reader may yet absorb a frame: it is inside a receive, or its next test lets it into one. */
  predicate IsLive(s: Session, cfg: Settings) {
    s.reader == Receiving || (s.reader == Checking && !s.stopping && s.clock < cfg.started + cfg.timeout)
  }

  /** Nobody is left to store another answer, or nothing more can be found and all of it is recorded. */
  predicate IsFinal(s: Session, cfg: Settings) {
    s.recorded.Some? && (StillAsking(s) == {} || (!IsLive(s, cfg) && s.recorded.value == s.record.found))
  }

  lemma StaysFinal(s: Session, e: SessionEvent, cfg: Settings)
    requires SessionEnabled(s, e) && IsFinal(s, cfg)
    ensures IsFinal(SessionStep(s, e, cfg), cfg) && SessionStep(s, e, cfg).recorded == s.recorded
  {
    OnlyEarlierAskersReplace(s, e, cfg);
    hide StillAsking, Absorbed, IsOver;
  }

  lemma {:induction false} FinalIsFixed(s: Session, events: seq<SessionEvent>, cfg: Settings)
    requires IsFinal(s, cfg)
    ensures RunFrom(s, events, cfg).Some? ==> RunFrom(s, events, cfg).value.recorded == s.recorded
    decreases |events|
  {
    hide SessionStep, IsFinal;
    if |events| == 0 || !SessionEnabled(s, events[0]) {
    } else {
      StaysFinal(s, events[0], cfg);
      FinalIsFixed(SessionStep(s, events[0], cfg), events[1..], cfg);
    }
  }

  lemma {:induction false} RunsOn(s: Session, events: seq<SessionEvent>, more: seq<SessionEvent>, cfg: Settings)
    requires RunFrom(s, events, cfg).Some?
    ensures RunFrom(s, events + more, cfg) == RunFrom(RunFrom(s, events, cfg).value, more, cfg)
    decreases |events|
  {
    hide SessionStep, SessionEnabled;
    if |events| == 0 {
      assert events + more == more;
    } else {
      assert (events + more)[1..] == events[1..] + more;
      RunsOn(SessionStep(s, events[0], cfg), events[1..], more, cfg);
    }
  }

  lemma OneStep(s: Session, e: SessionEvent, cfg: Settings)
    requires SessionEnabled(s, e)
    ensures RunFrom(s, [e], cfg) == Some(SessionStep(s, e, cfg))
  {
    hide SessionStep, SessionEnabled;
    assert RunFrom(SessionStep(s, e, cfg), [], cfg) == Some(SessionStep(s, e, cfg));
  }

  lemma TwoSteps(s: Session, e: SessionEvent, f: SessionEvent, cfg: Settings)
    requires SessionEnabled(s, e) && SessionEnabled(SessionStep(s, e, cfg), f)
    ensures RunFrom(s, [e, f], cfg) == Some(SessionStep(SessionStep(s, e, cfg), f, cfg))
  {
    OneStep(s, e, cfg);
    OneStep(SessionStep(s, e, cfg), f, cfg);
    RunsOn(s, [e], [f], cfg);
    assert [e] + [f] == [e, f];
  }

  function Latest(s: Session, cfg: Settings): real {
    if s.clock > cfg.started + cfg.timeout then s.clock else cfg.started + cfg.timeout
  }

  /** What is left of the wait of a call that found nothing recorded, up to its store, once the deadline has come. */
  function RestOfWait(s: Session, id: nat, cfg: Settings): seq<SessionEvent>
    requires id in s.askers
  {
    if s.askers[id].Woken? then [Stored(id)] else [Looked(id, Latest(s, cfg)), Stored(id)]
  }

  /** Such a call can always finish its wait, at the deadline at the latest, and stores all that is found by then. */
  lemma WaitsEnd(s: Session, id: nat, cfg: Settings)
    requires AskersAreSound(s, cfg) && id in StillAsking(s)
    ensures var after := RunFrom(s, RestOfWait(s, id, cfg), cfg);
            && after.Some?
            && after.value.recorded == Some(s.record.found)
            && after.value.askers == s.askers[id := Reading]
            && after.value.answers == s.answers
  {
    if s.askers[id].Woken? {
      OneStep(s, Stored(id), cfg);
    } else {
      var looked := Looked(id, Latest(s, cfg));
      assert SessionEnabled(s, looked) && IsOver(s, Latest(s, cfg), cfg);
      TwoSteps(s, looked, Stored(id), cfg);
    }
    hide RunFrom;
  }

  /** No other thread takes a step away from a call: whatever it could do next, it still can, no later than before. */
  lemma NobodyHinders(s: Session, e: SessionEvent, id: nat, cfg: Settings)
    requires SessionEnabled(s, e) && id in s.askers && !((e.Looked? || e.Stored? || e.Returned?) && e.id == id)
    ensures var s' := SessionStep(s, e, cfg);
            && id in s'.askers && s'.askers[id] == s.askers[id]
            && (SessionEnabled(s, Stored(id)) ==> SessionEnabled(s', Stored(id)))
            && (SessionEnabled(s, Returned(id)) ==> SessionEnabled(s', Returned(id)))
            && (forall now :: Looks(s.askers[id], s, now) ==> Looks(s'.askers[id], s', now))
  {
    hide IsOver, Asleep;
  }

  /**
   * Every call of result() returns: from any state a run can reach, at the deadline at the latest, by its own steps
   * alone.
   */
  lemma CallsReturn(s: Session, id: nat, cfg: Settings)
    requires AskersAreSound(s, cfg) && id in s.askers
    ensures var rest := (if s.askers[id].Reading? then [] else RestOfWait(s, id, cfg)) + [Returned(id)];
            var after := RunFrom(s, rest, cfg);
            && |rest| <= 3
            && after.Some? && id !in after.value.askers && |after.value.answers| == |s.answers| + 1
  {
    if s.askers[id].Reading? {
      OneStep(s, Returned(id), cfg);
      assert [] + [Returned(id)] == [Returned(id)];
    } else {
      WaitsEnd(s, id, cfg);
      var s' := RunFrom(s, RestOfWait(s, id, cfg), cfg).value;
      OneStep(s', Returned(id), cfg);
      RunsOn(s, RestOfWait(s, id, cfg), [Returned(id)], cfg);
    }
    hide RunFrom;
  }

  /** The reader's next steps, when it can still absorb this frame. */
  function Absorbing(s: Session, frame: bytes): seq<SessionEvent> {
    if s.reader == Receiving then [FrameArrived(frame, s.clock)] else [Checked(s.clock), FrameArrived(frame, s.clock)]
  }

  lemma LiveReaderAbsorbs(s: Session, frame: bytes, cfg: Settings)
    requires IsLive(s, cfg)
    ensures var after := RunFrom(s, Absorbing(s, frame), cfg);
            && after.Some?
            && after.value.record == Absorbed(s.record, frame, s.clock, cfg.mac)
            && after.value.askers == s.askers && after.value.recorded == s.recorded
  {
    hide Absorbed, RunFrom;
    if s.reader == Receiving {
      OneStep(s, FrameArrived(frame, s.clock), cfg);
    } else {
      TwoSteps(s, Checked(s.clock), FrameArrived(frame, s.clock), cfg);
    }
  }

  lemma {:induction false} RunKeepsAskers(s: Session, events: seq<SessionEvent>, cfg: Settings)
    requires AskersAreSound(s, cfg) && RunFrom(s, events, cfg).Some?
    ensures AskersAreSound(RunFrom(s, events, cfg).value, cfg)
    decreases |events|
  {
    hide SessionStep, SessionEnabled, AskersAreSound;
    if |events| == 0 {
    } else {
      AskersAfter(s, events[0], cfg);
      RunKeepsAskers(SessionStep(s, events[0], cfg), events[1..], cfg);
    }
  }

  lemma OfferFrameOffers(mac: bytes, address: bytes)
    requires IsClient(mac) && IsAddress(address)
    ensures OfferIn(OfferFrame(mac, address), mac, None) == Some(address)
  {
    OfferFrameIsRead(mac, address);
    hide FromFrame, OfferFrame;
  }

  /**
   * The run that replaces what is recorded: one more offer, if the reader still takes one, then the late call's
   * store.
   */
  function Overtaking(s: Session, id: nat, address: bytes, cfg: Settings): seq<SessionEvent>
    requires id in s.askers && IsClient(cfg.mac) && IsAddress(address)
  {
    if !IsLive(s, cfg) then RestOfWait(s, id, cfg)
    else
      var taken := RunFrom(s, Absorbing(s, OfferFrame(cfg.mac, address)), cfg);
      Absorbing(s, OfferFrame(cfg.mac, address))
      + if taken.Some? && id in taken.value.askers then RestOfWait(taken.value, id, cfg) else []
  }

  lemma OvertakingReplaces(s: Session, id: nat, address: bytes, cfg: Settings)
    requires SessionSound(s, cfg) && id in StillAsking(s)
    requires IsClient(cfg.mac) && IsAddress(address) && address !in s.record.found
    ensures var after := RunFrom(s, Overtaking(s, id, address, cfg), cfg);
            after.Some? && after.value.recorded == Some(s.record.found + if IsLive(s, cfg) then [address] else [])
  {
    if !IsLive(s, cfg) {
      WaitsEnd(s, id, cfg);
      assert s.record.found + [] == s.record.found;
    } else {
      var frame := OfferFrame(cfg.mac, address);
      OfferFrameOffers(cfg.mac, address);
      assert address !in s.record.seen;
      assert Absorbed(s.record, frame, s.clock, cfg.mac).found == s.record.found + [address];
      hide OfferFrame, OfferIn, Absorbed, HistoryIsSound, AnswersAreSound, IsLive;
      LiveReaderAbsorbs(s, frame, cfg);
      RunKeepsAskers(s, Absorbing(s, frame), cfg);
      var taken := RunFrom(s, Absorbing(s, frame), cfg).value;
      assert id in StillAsking(taken);
      WaitsEnd(taken, id, cfg);
      RunsOn(s, Absorbing(s, frame), RestOfWait(taken, id, cfg), cfg);
    }
  }

  /**
   * A recorded result stays what it is, whatever comes, if and only if no call that found nothing recorded is still on
   * its way, or the reader can absorb nothing more and all that was found is recorded: each such call will store all
   * that is found by then. (`address` is any address not offered yet.)
   */
  lemma ResultsAreFixed(s: Session, address: bytes, cfg: Settings)
    requires SessionSound(s, cfg) && s.recorded.Some?
    requires IsClient(cfg.mac) && IsAddress(address) && address !in s.record.found
    ensures (forall events :: RunFrom(s, events, cfg).Some? ==> RunFrom(s, events, cfg).value.recorded == s.recorded)
       <==> StillAsking(s) == {} || (!IsLive(s, cfg) && s.recorded.value == s.record.found)
  {
    hide SessionSound, RunFrom, StillAsking, IsLive;
    if IsFinal(s, cfg) {
      forall events | RunFrom(s, events, cfg).Some? ensures RunFrom(s, events, cfg).value.recorded == s.recorded {
        FinalIsFixed(s, events, cfg);
      }
    } else {
      var id :| id in StillAsking(s);
      OvertakingReplaces(s, id, address, cfg);
      RecordedIsFound(s, cfg);
      assert |s.record.found + [address]| > |s.record.found|;
      assert RunFrom(s, Overtaking(s, id, address, cfg), cfg).Some?;
    }
  }

  lemma RecordedIsFound(s: Session, cfg: Settings)
    requires SessionSound(s, cfg) && s.recorded.Some?
    ensures s.recorded.value <= s.record.found
    ensures forall id :: id in StillAsking(s) ==> id in s.askers
  {
    hide HistoryIsSound, CoversAWake;
  }

  // ---------------------------------------------------------------- two overlapping calls

  /**
   * Two calls pass the test together, once the first offer has been followed by quiet. The first call stores and
   * returns; the reader, still in its window, takes a second offer; the other call then stores and returns both.
   */
  function TwoAskers(first: bytes, second: bytes, t0: real, t1: real, t2: real): seq<SessionEvent> {
    [Checked(t0), FrameArrived(first, t0), Checked(t0), NothingArrived, Checked(t1)]
    + [Asked(0), Asked(1), Looked(0, t1), Stored(0), Returned(0)]
    + [FrameArrived(second, t1), Looked(1, t2), Stored(1), Returned(1)]
  }

  lemma StepAt(s: Session, events: seq<SessionEvent>, i: nat, cfg: Settings)
    requires i < |events| && SessionEnabled(s, events[i])
    ensures RunFrom(s, events[i..], cfg) == RunFrom(SessionStep(s, events[i], cfg), events[i + 1..], cfg)
  {
    hide SessionStep, SessionEnabled;
    assert events[i..][1..] == events[i + 1..];
  }

  /** One offer has been taken, and the reader is inside another receive. */
  function Offered(first: bytes, a: bytes, t0: real, t1: real): Session {
    Session([first], [t0], t1, Record([a], {a}, Some(t0)), Receiving, false, false, None, map[], [], [])
  }

  lemma OfferIsTaken(first: bytes, second: bytes, a: bytes, t0: real, t1: real, t2: real, cfg: Settings)
    requires OfferIn(first, cfg.mac, None) == Some(a) && cfg.started <= t0 <= t1 < cfg.started + cfg.timeout
    ensures var events := TwoAskers(first, second, t0, t1, t2);
            RunFrom(NewSession(cfg), events[0..], cfg) == RunFrom(Offered(first, a, t0, t1), events[5..], cfg)
  {
    hide OfferIn, RunFrom;
    var events, s0 := TwoAskers(first, second, t0, t1, t2), NewSession(cfg);
    var s1 := s0.(clock := t0, reader := Receiving);
    var s2 := s1.(frames := [first], times := [t0], record := Record([a], {a}, Some(t0)), reader := Checking);
    StepAt(s0, events, 0, cfg);
    assert SessionStep(s0, events[0], cfg) == s1;
    StepAt(s1, events, 1, cfg);
    assert SessionStep(s1, events[1], cfg) == s2;
    StepAt(s2, events, 2, cfg);
    StepAt(s2.(reader := Receiving), events, 3, cfg);
    StepAt(s2, events, 4, cfg);
  }

  /** The first call has returned `[a]`, and the other is still waiting. */
  function Halfway(first: bytes, a: bytes, t0: real, t1: real): Session {
    Offered(first, a, t0, t1).(recorded := Some([a]), askers := map[1 := Waiting], wakes := [Wake(t1, 1, false)],
      answers := [[a]])
  }

  lemma FirstReturns(first: bytes, second: bytes, a: bytes, t0: real, t1: real, t2: real, cfg: Settings)
    requires t0 + cfg.settle <= t1 < cfg.started + cfg.timeout
    ensures var events := TwoAskers(first, second, t0, t1, t2);
            RunFrom(Offered(first, a, t0, t1), events[5..], cfg)
              == RunFrom(Halfway(first, a, t0, t1), events[10..], cfg)
  {
    hide OfferIn, RunFrom;
    var events, s5 := TwoAskers(first, second, t0, t1, t2), Offered(first, a, t0, t1);
    var s6 := s5.(askers := map[0 := Waiting]);
    var s7 := s5.(askers := map[0 := Waiting, 1 := Waiting]);
    var s8 := s7.(askers := map[0 := Woken(0), 1 := Waiting], wakes := [Wake(t1, 1, false)]);
    var s9 := s8.(recorded := Some([a]), askers := map[0 := Reading, 1 := Waiting]);
    StepAt(s5, events, 5, cfg);
    assert SessionStep(s5, events[5], cfg) == s6;
    StepAt(s6, events, 6, cfg);
    assert SessionStep(s6, events[6], cfg) == s7;
    StepAt(s7, events, 7, cfg);
    assert SessionStep(s7, events[7], cfg) == s8;
    StepAt(s8, events, 8, cfg);
    assert SessionStep(s8, events[8], cfg) == s9;
    StepAt(s9, events, 9, cfg);
    assert s9.askers - {0} == map[1 := Waiting] && s9.answers + [[a]] == [[a]];
    assert SessionStep(s9, events[9], cfg) == Halfway(first, a, t0, t1);
  }

  lemma SecondReturns(first: bytes, second: bytes, a: bytes, b: bytes, t0: real, t1: real, t2: real, cfg: Settings)
    requires OfferIn(second, cfg.mac, None) == Some(b) && a != b && t1 <= t2
    requires t2 >= t1 + cfg.settle || t2 >= cfg.started + cfg.timeout
    ensures var after := RunFrom(Halfway(first, a, t0, t1), TwoAskers(first, second, t0, t1, t2)[10..], cfg);
            after.Some? && after.value.answers == [[a], [a, b]]
  {
    hide OfferIn, RunFrom;
    var events, s10 := TwoAskers(first, second, t0, t1, t2), Halfway(first, a, t0, t1);
    StepAt(s10, events, 10, cfg);
    var s11 := SessionStep(s10, events[10], cfg);
    assert s11.record == Record([a, b], {a, b}, Some(t1));
    StepAt(s11, events, 11, cfg);
    var s12 := SessionStep(s11, events[11], cfg);
    StepAt(s12, events, 12, cfg);
    var s13 := SessionStep(s12, events[12], cfg);
    assert s13.recorded == Some([a, b]) && s13.askers[1] == Reading;
    StepAt(s13, events, 13, cfg);
    var s14 := SessionStep(s13, events[13], cfg);
    assert s14.answers == [[a]] + [[a, b]] && events[14..] == [];
    assert RunFrom(s14, [], cfg) == Some(s14) by {
      NoMoreSteps(s14, cfg);
    }
  }

  lemma NoMoreSteps(s: Session, cfg: Settings)
    ensures RunFrom(s, [], cfg) == Some(s)
  {
  }

  /**
   * So a repeated result() can answer differently from the first, within one window: two real offers, the second of
   * them after the first call has returned and before the deadline.
   */
  lemma TwoAnswersDiffer(a: bytes, b: bytes, t0: real, t1: real, t2: real, cfg: Settings)
    requires IsClient(cfg.mac) && IsAddress(a) && IsAddress(b) && a != b
    requires cfg.started <= t0 <= t0 + cfg.settle <= t1 < cfg.started + cfg.timeout
    requires t1 <= t2 && (t2 >= t1 + cfg.settle || t2 >= cfg.started + cfg.timeout)
    ensures var (first, second) := (OfferFrame(cfg.mac, a), OfferFrame(cfg.mac, b));
            var after := RunFrom(NewSession(cfg), TwoAskers(first, second, t0, t1, t2), cfg);
            after.Some? && after.value.answers == [[a], [a, b]]
  {
    OfferFrameOffers(cfg.mac, a);
    OfferFrameOffers(cfg.mac, b);
    var first, second := OfferFrame(cfg.mac, a), OfferFrame(cfg.mac, b);
    hide *;
    OfferIsTaken(first, second, a, t0, t1, t2, cfg);
    FirstReturns(first, second, a, t0, t1, t2, cfg);
    SecondReturns(first, second, a, b, t0, t1, t2, cfg);
    assert TwoAskers(first, second, t0, t1, t2)[0..] == TwoAskers(first, second, t0, t1, t2);
  }

  /** With the default window and quiet time: offers at 1 and 13 seconds. */
  lemma AnAnswerIsReplaced()
    ensures IsClient(THIS_MAC) && IsAddress(FIRST) && IsAddress(SECOND)
    ensures var events := TwoAskers(OfferFrame(THIS_MAC, FIRST), OfferFrame(THIS_MAC, SECOND), 1.0, 13.0, 25.0);
            var after := RunFrom(NewSession(DEFAULTS), events, DEFAULTS);
            after.Some? && after.value.answers == [[FIRST], [FIRST, SECOND]]
  {
    assert THIS_MAC[0] == 2 && FIRST[0] == 198 && SECOND[0] == 198 && FIRST[3] != SECOND[3];
    hide RunFrom, OfferFrame;
    TwoAnswersDiffer(FIRST, SECOND, 1.0, 13.0, 25.0, DEFAULTS);
  }

  const THIS_MAC: bytes := [2, 0, 0, 0, 0, 7]
  const FIRST: bytes := [198, 51, 100, 36]
  const SECOND: bytes := [198, 51, 100, 51]
  const DEFAULTS := Settings(THIS_MAC, 0.0, 60.0, 12.0)

  // ---------------------------------------------------------------- every interleaving

  /** A session and any number of iterators over it. */
  datatype Watch = Watch(session: Session, iterations: map<nat, Iteration>)

  datatype Event = OnSession(e: SessionEvent) | Opened(id: nat) | Pull(id: nat)

  predicate Enabled(w: Watch, e: Event) {
    match e
    case OnSession(s) => SessionEnabled(w.session, s)
    case Opened(id) => id !in w.iterations
    case Pull(id) => id in w.iterations && IsDue(w.iterations[id], w.session)
  }

  function Step(w: Watch, e: Event, cfg: Settings): Watch
    requires Enabled(w, e)
  {
    match e
    case OnSession(s) => w.(session := SessionStep(w.session, s, cfg))
    case Opened(id) => w.(iterations := w.iterations[id := NEW_ITERATION])
    case Pull(id) => w.(iterations := w.iterations[id := Pulled(w.iterations[id], w.session.record.found)])
  }

  function Run(events: seq<Event>, cfg: Settings): Option<Watch> {
    if |events| == 0 then Some(Watch(NewSession(cfg), map[]))
    else
      var before := Run(events[..|events| - 1], cfg);
      var e := events[|events| - 1];
      if before.Some? && Enabled(before.value, e) then Some(Step(before.value, e, cfg)) else None
  }

  ghost predicate Sound(w: Watch, cfg: Settings) {
    && SessionSound(w.session, cfg)
    && (forall id :: id in w.iterations ==> w.iterations[id].yielded <= w.session.record.found)
    && forall id :: id in w.iterations && w.iterations[id].stopped ==> w.session.finished
  }

  /**
   * An iterator waits for nothing but another address or the end: with either it goes on, and it stops only at the
   * end.
   */
  lemma IteratorsGoOn(w: Watch, id: nat, cfg: Settings)
    requires Sound(w, cfg) && id in w.iterations && !w.iterations[id].stopped
    ensures var it, found := w.iterations[id], w.session.record.found;
            && (Enabled(w, Pull(id)) <==> it.yielded < found || w.session.finished)
            && (Enabled(w, Pull(id)) ==>
                  var next := Step(w, Pull(id), cfg).iterations[id];
                  if it.yielded < found then next == Iteration(it.yielded + [found[|it.yielded|]], false)
                  else next == Iteration(it.yielded, true))
  {
    hide SessionSound;
  }

  lemma NewIsSound(cfg: Settings)
    ensures SessionSound(NewSession(cfg), cfg)
  {
  }

  function FramesIn(events: seq<Event>): seq<bytes> {
    if |events| == 0 then []
    else
      var e := events[|events| - 1];
      FramesIn(events[..|events| - 1]) + if e.OnSession? && e.e.FrameArrived? then [e.e.frame] else []
  }

  lemma FinishedStays(s: Session, e: SessionEvent, cfg: Settings)
    requires SessionEnabled(s, e)
    ensures s.finished ==> SessionStep(s, e, cfg).finished
  {
  }

  lemma StepIsSound(w: Watch, e: Event, cfg: Settings)
    requires Sound(w, cfg) && Enabled(w, e)
    ensures Sound(Step(w, e, cfg), cfg)
    ensures Step(w, e, cfg).session.frames
         == w.session.frames + if e.OnSession? && e.e.FrameArrived? then [e.e.frame] else []
    ensures e.Pull? && Step(w, e, cfg).iterations[e.id].stopped ==>
            Step(w, e, cfg).iterations[e.id].yielded == w.session.record.found
  {
    match e {
      case OnSession(e) =>
        SessionStepIsSound(w.session, e, cfg);
        FinishedStays(w.session, e, cfg);
        hide SessionSound, SessionEnabled, SessionStep, IsDue, Pulled;
      case Opened(id) =>
        hide SessionSound, SessionEnabled, SessionStep, IsDue, Pulled;
      case Pull(id) =>
        hide SessionSound, SessionEnabled, SessionStep;
    }
  }

  /**
   * However frames, closing, iterators and calls of result() interleave: the record is the fold of every frame so
   * far, of which at most one came at the deadline or later; every wait ended at its deadline, at the session's
   * end, or after `settle` without a new address; every result covers all that was offered when some wait ended,
   * and extends the results before it; every iterator has replayed a prefix of the record, and one that stops has
   * just replayed all of it.
   */
  lemma {:induction false} EveryWatchIsSound(events: seq<Event>, cfg: Settings)
    requires Run(events, cfg).Some?
    ensures Sound(Run(events, cfg).value, cfg)
    ensures Run(events, cfg).value.session.frames == FramesIn(events)
    ensures |events| > 0 && events[|events| - 1].Pull? ==>
              var w := Run(events, cfg).value;
              var it := w.iterations[events[|events| - 1].id];
              it.stopped ==> it.yielded == w.session.record.found
    decreases |events|
  {
    if |events| == 0 {
      NewIsSound(cfg);
    } else {
      var init, e := events[..|events| - 1], events[|events| - 1];
      EveryWatchIsSound(init, cfg);
      StepIsSound(Run(init, cfg).value, e, cfg);
    }
  }
}
