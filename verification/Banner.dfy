/** The first line of a greeting, however the network cuts it up. */
module Banner {
  import opened Bytes

  const NEWLINE: byte := 10

  /** Where the first newline is, or the length when there is none. */
  function FirstNewline(data: bytes): (n: nat)
    ensures n <= |data|
  {
    if |data| == 0 || data[0] == NEWLINE then 0 else 1 + FirstNewline(data[1..])
  }

  lemma {:induction false} NewlineIn(data: bytes)
    ensures FirstNewline(data) < |data| ==> data[FirstNewline(data)] == 10
    ensures forall i :: 0 <= i < FirstNewline(data) ==> data[i] != 10
  {
    if |data| == 0 || data[0] == NEWLINE {
    } else {
      NewlineIn(data[1..]);
    }
  }

  lemma {:induction false} NewlineAfter(before: bytes, after: bytes)
    requires FirstNewline(before) == |before|
    ensures FirstNewline(before + after) == |before| + FirstNewline(after)
  {
    if |before| > 0 {
      assert (before + after)[1..] == before[1..] + after;
      NewlineAfter(before[1..], after);
    } else {
      assert before + after == after;
    }
  }

  lemma {:induction false} NewlineWithin(before: bytes, after: bytes)
    requires FirstNewline(before) < |before|
    ensures FirstNewline(before + after) == FirstNewline(before)
  {
    if before[0] == NEWLINE {
    } else {
      assert (before + after)[1..] == before[1..] + after;
      NewlineWithin(before[1..], after);
    }
  }

  /** The bytes before the first newline among the first `cap` delivered, or those first bytes when there is none. */
  function FirstLine(delivered: bytes, cap: nat): bytes {
    var head := if |delivered| <= cap then delivered else delivered[..cap];
    head[..FirstNewline(head)]
  }

  /**
   * A stream: what it still delivers before it closes, fails or runs out of time, and how much each read happens to
   * get.
   */
  class Stream {
    var unread: bytes
    var sizes: seq<nat>

    constructor (unread: bytes, sizes: seq<nat>)
      ensures this.unread == unread && this.sizes == sizes
    {
      this.unread, this.sizes := unread, sizes;
    }

    /** At least one byte and at most `n`, or None at whatever ends the stream. */
    method Read(n: nat) returns (chunk: Option<bytes>)
      requires n > 0
      modifies this
      ensures chunk.None? <==> old(unread) == []
      ensures chunk.None? ==> unread == []
      ensures chunk.Some? ==> 0 < |chunk.value| <= n && old(unread) == chunk.value + unread
    {
      if unread == [] {
        return None;
      }
      var most := if |unread| < n then |unread| else n;
      var size := if |sizes| > 0 && 0 < sizes[0] < most then sizes[0] else most;
      sizes := if |sizes| > 0 then sizes[1..] else [];
      chunk := Some(unread[..size]);
      unread := unread[size..];
    }
  }

  /** Independent of the chunking: only the bytes delivered and the cap decide the line. */
  method ReadLine(stream: Stream, cap: nat) returns (line: bytes)
    modifies stream
    ensures line == FirstLine(old(stream.unread), cap)
  {
    var received: bytes := [];
    ghost var delivered := stream.unread;
    while |received| < cap
      invariant |received| <= cap
      invariant delivered == received + stream.unread
      invariant FirstNewline(received) == |received|
      decreases cap - |received|
    {
      var chunk := stream.Read(cap - |received|);
      if chunk.None? {
        break;
      }
      var end := FirstNewline(chunk.value);
      NewlineAfter(received, chunk.value);
      if end < |chunk.value| {
        assert delivered == received + chunk.value + stream.unread;
        StopsInside(received, chunk.value, stream.unread, cap);
        return received + chunk.value[..end];
      }
      received := received + chunk.value;
    }
    assert received == if |delivered| <= cap then delivered else delivered[..cap];
    return received;
  }

  lemma StopsInside(received: bytes, chunk: bytes, unread: bytes, cap: nat)
    requires |received + chunk| <= cap
    requires FirstNewline(received + chunk) == |received| + FirstNewline(chunk) && FirstNewline(chunk) < |chunk|
    ensures FirstLine(received + chunk + unread, cap) == received + chunk[..FirstNewline(chunk)]
  {
    var seen, delivered := received + chunk, received + chunk + unread;
    var head := if |delivered| <= cap then delivered else delivered[..cap];
    var more := head[|seen|..];
    assert head == seen + more;
    NewlineWithin(seen, more);
  }
}
