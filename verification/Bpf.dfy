/** Splitting a BPF read into frames, and the capture that hands them out one at a time. */
module Bpf {
  import opened Bytes

  const BPF_HDR := 18

  /** BPF_WORDALIGN. */
  function WordAlign(n: nat): nat {
    n + 3 - (n + 3) % 4
  }

  function FramesIn(buffer: bytes): seq<bytes>
    decreases |buffer|
  {
    if |buffer| < BPF_HDR then []
    else
      var caplen, hdrlen := ReadU32Le(buffer, 8), ReadU16Le(buffer, 16);
      if hdrlen < BPF_HDR || caplen == 0 || hdrlen + caplen > |buffer| then []
      else [buffer[hdrlen..hdrlen + caplen]] + FramesIn(Drop(buffer, WordAlign(hdrlen + caplen)))
  }

  lemma FrameAt(buffer: bytes, position: nat, caplen: nat, hdrlen: nat, next: bytes)
    requires position + BPF_HDR <= |buffer| && caplen == ReadU32Le(buffer, position + 8)
             && hdrlen == ReadU16Le(buffer, position + 16)
    requires next == Drop(buffer, position + WordAlign(hdrlen + caplen))
    ensures hdrlen < BPF_HDR || caplen == 0 || position + hdrlen + caplen > |buffer| ==>
            FramesIn(Drop(buffer, position)) == []
    ensures hdrlen >= BPF_HDR && caplen > 0 && position + hdrlen + caplen <= |buffer| ==>
              FramesIn(Drop(buffer, position))
                == [buffer[position + hdrlen..position + hdrlen + caplen]] + FramesIn(next)
  {
    var rest := buffer[position..];
    assert ReadU32Le(rest, 8) == caplen && ReadU16Le(rest, 16) == hdrlen;
    if hdrlen >= BPF_HDR && caplen > 0 && position + hdrlen + caplen <= |buffer| {
      assert rest[hdrlen..hdrlen + caplen] == buffer[position + hdrlen..position + hdrlen + caplen];
      assert Drop(rest, WordAlign(hdrlen + caplen)) == next;
    }
  }

  /** The record at `position`: its frame and where the next one starts, or None where the walk stops. */
  method TakeFrame(buffer: bytes, position: nat) returns (taken: Option<(bytes, nat)>)
    requires position + BPF_HDR <= |buffer|
    ensures taken.None? ==> FramesIn(Drop(buffer, position)) == []
    ensures taken.Some? ==>
              && position < taken.value.1
              && FramesIn(Drop(buffer, position)) == [taken.value.0] + FramesIn(Drop(buffer, taken.value.1))
  {
    hide FramesIn;
    var caplen, hdrlen := ReadU32Le(buffer, position + 8), ReadU16Le(buffer, position + 16);
    var next := position + WordAlign(hdrlen + caplen);
    FrameAt(buffer, position, caplen, hdrlen, Drop(buffer, next));
    if hdrlen < BPF_HDR || caplen == 0 {
      return None;
    }
    var start := position + hdrlen;
    var end := start + caplen;
    if end > |buffer| {
      return None;
    }
    return Some((buffer[start..end], next));
  }

  method IterFrames(buffer: bytes) returns (frames: seq<bytes>)
    ensures frames == FramesIn(buffer)
  {
    frames := [];
    var position := 0;
    assert Drop(buffer, 0) == buffer;
    while position + BPF_HDR <= |buffer|
      invariant frames + FramesIn(Drop(buffer, position)) == FramesIn(buffer)
      decreases |buffer| - position
    {
      var taken := TakeFrame(buffer, position);
      if taken.None? {
        return;
      }
      Regrouped(frames, [taken.value.0], FramesIn(Drop(buffer, taken.value.1)));
      frames := frames + [taken.value.0];
      position := taken.value.1;
    }
  }

  // ---------------------------------------------------------------- records as the kernel packs them

  /** A header of any length that says where its frame starts and how long it is. */
  datatype Captured = Captured(header: bytes, frame: bytes)

  predicate Valid(c: Captured) {
    && |c.header| >= 18 && |c.frame| > 0
    && ReadU32Le(c.header, 8) == |c.frame|
    && ReadU16Le(c.header, 16) == |c.header|
  }

  function Pad(n: nat): bytes {
    Zeros(WordAlign(n) - n)
  }

  function Pack(records: seq<Captured>): bytes {
    if |records| == 0 then []
    else records[0].header + records[0].frame + Pad(|records[0].header + records[0].frame|) + Pack(records[1..])
  }

  function FramesOf(records: seq<Captured>): seq<bytes> {
    if |records| == 0 then [] else [records[0].frame] + FramesOf(records[1..])
  }

  lemma ReadsHeader(header: bytes, rest: bytes)
    requires |header| >= BPF_HDR
    ensures ReadU32Le(header + rest, 8) == ReadU32Le(header, 8) && ReadU16Le(header + rest, 16) == ReadU16Le(header, 16)
  {
    var buffer := header + rest;
    assert buffer[8] == header[8] && buffer[9] == header[9] && buffer[10] == header[10] && buffer[11] == header[11];
    assert buffer[16] == header[16] && buffer[17] == header[17];
  }

  lemma SkipsPadding(record: bytes, padding: bytes, after: bytes)
    requires |padding| == WordAlign(|record|) - |record| || (padding == [] && after == [])
    ensures Drop(record + padding + after, WordAlign(|record|)) == after
  {
    assert WordAlign(|record|) >= |record|;
    assert |padding| == WordAlign(|record|) - |record| ==> (record + padding + after)[|record| + |padding|..] == after;
  }

  lemma SplitsOne(c: Captured, padding: bytes, after: bytes)
    requires Valid(c)
    requires |padding| == WordAlign(|c.header + c.frame|) - |c.header + c.frame| || (padding == [] && after == [])
    ensures FramesIn(c.header + c.frame + padding + after) == [c.frame] + FramesIn(after)
  {
    hide FramesIn, ReadU32Le, ReadU16Le;
    var buffer := c.header + c.frame + padding + after;
    assert buffer == c.header + (c.frame + padding + after);
    ReadsHeader(c.header, c.frame + padding + after);
    SkipsPadding(c.header + c.frame, padding, after);
    FrameAt(buffer, 0, |c.frame|, |c.header|, after);
    assert Drop(buffer, 0) == buffer;
    assert buffer[|c.header|..|c.header| + |c.frame|] == c.frame;
  }

  lemma PackedThen(records: seq<Captured>, after: bytes)
    requires |records| > 0 && Valid(records[0])
    ensures FramesIn(Pack(records) + after) == [records[0].frame] + FramesIn(Pack(records[1..]) + after)
  {
    hide FramesIn, ReadU32Le, ReadU16Le;
    var c, rest := records[0], Pack(records[1..]) + after;
    var padding := Pad(|c.header + c.frame|);
    SplitsOne(c, padding, rest);
    assert Pack(records) + after == c.header + c.frame + padding + rest;
  }

  /** Records of any frames behind headers of any length split back to those frames, then whatever follows. */
  lemma {:induction false} SplitsPacked(records: seq<Captured>, after: bytes)
    requires forall i :: 0 <= i < |records| ==> Valid(records[i])
    ensures FramesIn(Pack(records) + after) == FramesOf(records) + FramesIn(after)
  {
    hide FramesIn, Pad, WordAlign;
    if |records| == 0 {
      assert [] + after == after;
    } else {
      PackedThen(records, after);
      SplitsPacked(records[1..], after);
      Regrouped([], [records[0].frame], FramesOf(records[1..]) + FramesIn(after));
    }
  }

  lemma NothingAfter<T>(s: seq<T>)
    ensures s + [] == s
  {
  }

  /** A whole read gives exactly the frames it packs, in order, whether or not the last record is padded out. */
  lemma ReadGivesItsFrames(records: seq<Captured>, last: Captured)
    requires (forall i :: 0 <= i < |records| ==> Valid(records[i])) && Valid(last)
    ensures FramesIn(Pack(records)) == FramesOf(records)
    ensures FramesIn(Pack(records) + (last.header + last.frame)) == FramesOf(records) + [last.frame]
  {
    assert FramesIn([]) == [];
    SplitsPacked(records, []);
    SplitsPacked(records, last.header + last.frame);
    SplitsOne(last, [], []);
    hide *;
    NothingAfter(Pack(records));
    NothingAfter(FramesOf(records));
    NothingAfter(last.header + last.frame);
    NothingAfter([last.frame]);
  }

  // ---------------------------------------------------------------- the capture

  /** What the device gives when it is asked: nothing in time, one read, or an error. */
  datatype Outcome = Timeout | Read(chunk: bytes) | OsError

  datatype Received = Nothing | Frame(frame: bytes) | Raised

  datatype State = State(pending: seq<bytes>, closed: bool)

  function Receive(s: State, outcome: Outcome): (State, Received) {
    if s.pending != [] then (s.(pending := s.pending[1..]), Frame(s.pending[0]))
    else
      match outcome
      case Timeout => (s, Nothing)
      case OsError => (s, if s.closed then Nothing else Raised)
      case Read(chunk) =>
        var frames := FramesIn(chunk);
        if frames == [] then (s, Nothing) else (s.(pending := frames[1..]), Frame(frames[0]))
  }

  class BpfCapture {
    var pending: seq<bytes>
    var closed: bool

    function View(): State
      reads this
    {
      State(pending, closed)
    }

    constructor ()
      ensures View() == State([], false)
    {
      pending, closed := [], false;
    }

    method ReceiveFrame(outcome: Outcome) returns (r: Received)
      modifies this
      ensures (View(), r) == Receive(old(View()), outcome)
    {
      if pending != [] {
        r := Frame(pending[0]);
        pending := pending[1..];
        return;
      }
      match outcome
      case Timeout => return Nothing;
      case OsError => return if closed then Nothing else Raised;
      case Read(chunk) =>
        var frames := IterFrames(chunk);
        pending := pending + frames;
        assert pending == frames;
        if pending == [] {
          return Nothing;
        }
        r := Frame(pending[0]);
        pending := pending[1..];
    }

    method Close()
      modifies this
      ensures View() == State([], true)
    {
      closed := true;
      pending := [];
    }
  }

  function Taken(r: Received): seq<bytes> {
    if r.Frame? then [r.frame] else []
  }

  /** The frames one call reads from the device: it reads only when nothing is pending. */
  function ReadBy(s: State, outcome: Outcome): seq<bytes> {
    if s.pending == [] && outcome.Read? then FramesIn(outcome.chunk) else []
  }

  lemma ReceiveConserves(s: State, outcome: Outcome)
    ensures var (s', r) := Receive(s, outcome);
            Taken(r) + s'.pending == s.pending + ReadBy(s, outcome) && s'.closed == s.closed
  {
    if s.pending != [] {
      assert s.pending == [s.pending[0]] + s.pending[1..];
    } else if outcome.Read? && FramesIn(outcome.chunk) != [] {
      assert FramesIn(outcome.chunk) == [FramesIn(outcome.chunk)[0]] + FramesIn(outcome.chunk)[1..];
    }
  }

  /** A run of receives from a new capture. */
  datatype Progress = Progress(state: State, delivered: seq<bytes>, read: seq<bytes>)

  function Run(outcomes: seq<Outcome>): Progress {
    if |outcomes| == 0 then Progress(State([], false), [], [])
    else
      var before, outcome := Run(outcomes[..|outcomes| - 1]), outcomes[|outcomes| - 1];
      var (state, received) := Receive(before.state, outcome);
      Progress(state, before.delivered + Taken(received), before.read + ReadBy(before.state, outcome))
  }

  /**
   * Before close no captured frame is lost, repeated or reordered: what was delivered, then what is pending, is all
   * that was read.
   */
  lemma {:induction false} NothingIsLost(outcomes: seq<Outcome>)
    ensures var p := Run(outcomes); p.delivered + p.state.pending == p.read && !p.state.closed
    decreases |outcomes|
  {
    hide Receive, ReadBy, FramesIn;
    if |outcomes| == 0 {
    } else {
      var before, outcome := Run(outcomes[..|outcomes| - 1]), outcomes[|outcomes| - 1];
      NothingIsLost(outcomes[..|outcomes| - 1]);
      ReceiveConserves(before.state, outcome);
      var (state, received) := Receive(before.state, outcome);
      assert before.delivered + Taken(received) + state.pending == before.delivered + (Taken(received) + state.pending);
      assert before.delivered + (before.state.pending + ReadBy(before.state, outcome))
        == before.read + ReadBy(before.state, outcome);
    }
  }

  lemma WordAlignIsNext(n: nat)
    ensures WordAlign(n) % 4 == 0 && n <= WordAlign(n) < n + 4
  {
  }

  /** An error of the device raises before close, and after close is a quiet stop; pending frames always go first. */
  lemma ErrorsStopQuietlyOnceClosed(pending: seq<bytes>)
    ensures Receive(State([], false), OsError) == (State([], false), Raised)
    ensures Receive(State([], true), OsError) == (State([], true), Nothing)
    ensures forall closed :: Receive(State([], closed), Timeout) == (State([], closed), Nothing)
    ensures pending != [] ==> Receive(State(pending, false), OsError) == (State(pending[1..], false), Frame(pending[0]))
  {
  }
}
