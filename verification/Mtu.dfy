/** The path-MTU bisection, against an oracle that may answer anything. */
module Mtu {
  import opened Bytes

  const MIN_MTU := 68
  const MAX_MTU := 9000
  /** An IPv4 header and the ICMP echo or UDP header after it. */
  const OVERHEAD := 28

  datatype Probe = Probe(size: int, fits: bool)

  lemma {:induction false} BitLengthGrows(a: nat, b: nat)
    requires a <= b
    ensures BitLength(a) <= BitLength(b)
  {
    if a == 0 {
    } else {
      BitLengthGrows(a / 2, b / 2);
    }
  }

  /** Either half of an interval takes one probe fewer. */
  lemma Halves(low: int, high: int)
    requires low < high
    ensures var middle := (low + high + 1) / 2;
            && low < middle <= high
            && BitLength(high - middle) < BitLength(high - low) && BitLength(middle - 1 - low) < BitLength(high - low)
  {
    var middle := (low + high + 1) / 2;
    BitLengthGrows(high - middle, (high - low) / 2);
    BitLengthGrows(middle - 1 - low, (high - low) / 2);
  }

  lemma WidestSearch()
    ensures BitLength(MAX_MTU - MIN_MTU) == 14
  {
    assert BitLength(34) == 6 by {
      assert BitLength(34) == 1 + BitLength(17) && BitLength(17) == 1 + BitLength(8)
        && BitLength(8) == 1 + BitLength(4);
      assert BitLength(4) == 1 + BitLength(2) && BitLength(2) == 1 + BitLength(1) && BitLength(1) == 1 + BitLength(0);
    }
    assert BitLength(558) == 10 by {
      assert BitLength(558) == 1 + BitLength(279) && BitLength(279) == 1 + BitLength(139)
        && BitLength(139) == 1 + BitLength(69);
      assert BitLength(69) == 1 + BitLength(34);
    }
    assert BitLength(8932) == 1 + BitLength(4466) && BitLength(4466) == 1 + BitLength(2233);
    assert BitLength(2233) == 1 + BitLength(1116) && BitLength(1116) == 1 + BitLength(558);
  }

  /** Whether every answer is that of one limit. */
  ghost predicate Consistent(probes: seq<Probe>, limit: int) {
    forall p :: p in probes ==> (p.fits <==> p.size <= limit)
  }

  /** Each probe's answer is the oracle's, and no size lies outside the limits. */
  ghost predicate AnsweredBy(probes: seq<Probe>, answers: (nat, int) -> bool) {
    forall n :: 0 <= n < |probes| ==>
      probes[n].fits == answers(n, probes[n].size) && MIN_MTU <= probes[n].size + OVERHEAD <= MAX_MTU
  }

  lemma OneMoreProbe(probes: seq<Probe>, size: int, answers: (nat, int) -> bool)
    requires AnsweredBy(probes, answers) && MIN_MTU <= size + OVERHEAD <= MAX_MTU
    ensures AnsweredBy(probes + [Probe(size, answers(|probes|, size))], answers)
    ensures var probe := Probe(size, answers(|probes|, size));
            forall p :: p in probes + [probe] <==> p in probes || p == probe
  {
  }

  ghost predicate IsLimit(answers: (nat, int) -> bool, limit: int) {
    forall n, size :: answers(n, size) <==> size <= limit
  }

  /** A limit of the oracle's is one of every list of its answers. */
  lemma LimitIsConsistent(probes: seq<Probe>, answers: (nat, int) -> bool)
    requires AnsweredBy(probes, answers)
    ensures forall limit :: IsLimit(answers, limit) ==> Consistent(probes, limit)
  {
    forall limit, p | IsLimit(answers, limit) && p in probes ensures p.fits <==> p.size <= limit {
      var n :| 0 <= n < |probes| && probes[n] == p;
      assert probes[n].fits == answers(n, probes[n].size);
    }
  }

  /** What the bisection finds when `limit` is the largest payload that fits. */
  function Found(limit: int): Option<int> {
    if limit + 28 < 68 then None else Some(if limit + 28 < 9000 then limit + 28 else 9000)
  }

  /** Consistent answers pin the limit between a size that fit and its refused successor. */
  lemma PinsTheLimit(probes: seq<Probe>, size: int)
    requires Probe(size, true) in probes && (size < MAX_MTU - OVERHEAD ==> Probe(size + 1, false) in probes)
    ensures forall limit :: Consistent(probes, limit) ==> size <= limit && (size < MAX_MTU - OVERHEAD ==> limit == size)
  {
  }

  /**
   * `answers(n, size)` is what the n-th probe finds, consistent or not. The result is a size that was probed and
   * fit and whose successor, unless past the maximum, was probed and refused; it takes at most 15 probes, and under
   * consistent answers it is the limit itself, up to the maximum.
   */
  method Bisect(answers: (nat, int) -> bool) returns (mtu: Option<int>, ghost probes: seq<Probe>)
    ensures 1 <= |probes| <= 15
    ensures AnsweredBy(probes, answers)
    ensures mtu.None? <==> !probes[0].fits
    ensures probes[0].size == 40
    ensures mtu.Some? ==>
              && 68 <= mtu.value <= 9000
              && Probe(mtu.value - OVERHEAD, true) in probes
              && (mtu.value < MAX_MTU ==> Probe(mtu.value - OVERHEAD + 1, false) in probes)
    ensures forall limit :: Consistent(probes, limit) ==> mtu == Found(limit)
    ensures forall limit :: IsLimit(answers, limit) ==> mtu == Found(limit)
    ensures mtu.None? <==> !answers(0, MIN_MTU - OVERHEAD)
  {
    var low, high := MIN_MTU - OVERHEAD, MAX_MTU - OVERHEAD;
    var n := 0;
    var fits := answers(n, low);
    n := n + 1;
    probes := [Probe(low, fits)];
    if !fits {
      assert probes[0] in probes;
      LimitIsConsistent(probes, answers);
      return None, probes;
    }
    WidestSearch();
    hide Consistent, BitLength, AnsweredBy, IsLimit;
    while low < high
      invariant MIN_MTU - OVERHEAD <= low <= high <= MAX_MTU - OVERHEAD
      invariant 1 <= n == |probes| && probes[0] == Probe(MIN_MTU - OVERHEAD, true)
      invariant n + BitLength(high - low) <= 15
      invariant AnsweredBy(probes, answers)
      invariant Probe(low, true) in probes
      invariant high < MAX_MTU - OVERHEAD ==> Probe(high + 1, false) in probes
    {
      var middle := (low + high + 1) / 2;
      fits := answers(n, middle);
      Halves(low, high);
      n := n + 1;
      OneMoreProbe(probes, middle, answers);
      probes := probes + [Probe(middle, fits)];
      if fits {
        low := middle;
      } else {
        high := middle - 1;
      }
    }
    PinsTheLimit(probes, low);
    LimitIsConsistent(probes, answers);
    return Some(low + OVERHEAD), probes;
  }
}
