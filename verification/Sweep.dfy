/** Which candidate networks a sweep bounded to `limit` addresses covers. */
module Sweep {
  datatype Network = Network(name: string, addresses: nat)

  datatype SweepScope = SweepScope(limit: nat, networks: seq<Network>, skipped: seq<Network>) {
    predicate Complete() {
      skipped == []
    }
  }

  function Total(networks: seq<Network>): nat {
    if |networks| == 0 then 0 else Total(networks[..|networks| - 1]) + networks[|networks| - 1].addresses
  }

  /** The candidates whose mark is `mark`, in order. */
  function Marked(candidates: seq<Network>, marks: seq<bool>, mark: bool): seq<Network>
    requires |marks| == |candidates|
  {
    if |candidates| == 0 then []
    else
      var last := |candidates| - 1;
      Marked(candidates[..last], marks[..last], mark) + if marks[last] == mark then [candidates[last]] else []
  }

  lemma {:induction false} TotalSplits(candidates: seq<Network>, marks: seq<bool>)
    requires |marks| == |candidates|
    ensures Total(candidates) == Total(Marked(candidates, marks, true)) + Total(Marked(candidates, marks, false))
  {
    if |candidates| == 0 {
    } else {
      var last := |candidates| - 1;
      var init, network, mark := candidates[..last], candidates[last], marks[last];
      TotalSplits(init, marks[..last]);
      assert candidates == init + [network] && marks == marks[..last] + [mark];
      AppendMark(init, network, marks[..last], mark);
      AppendNetwork(init, network);
      AppendNetwork(Marked(init, marks[..last], mark), network);
    }
  }

  /** Each candidate is marked exactly when it fits the room the marked ones before it left. */
  predicate FitInTurn(candidates: seq<Network>, marks: seq<bool>, limit: nat)
    requires |marks| <= |candidates|
  {
    forall i :: 0 <= i < |marks| ==>
      (marks[i] <==> candidates[i].addresses + Total(Marked(candidates[..i], marks[..i], true)) <= limit)
  }

  lemma FitsOneMore(candidates: seq<Network>, marks: seq<bool>, fits: bool, limit: nat)
    requires |marks| < |candidates| && FitInTurn(candidates, marks, limit)
    requires fits <==> candidates[|marks|].addresses + Total(Marked(candidates[..|marks|], marks, true)) <= limit
    ensures FitInTurn(candidates, marks + [fits], limit)
  {
    hide Total, Marked;
    var next := marks + [fits];
    forall i | 0 <= i < |next|
      ensures next[i] <==> candidates[i].addresses + Total(Marked(candidates[..i], next[..i], true)) <= limit
    {
      assert next[..i] == if i == |marks| then marks else marks[..i];
    }
  }

  lemma AppendNetwork(networks: seq<Network>, network: Network)
    ensures Total(networks + [network]) == Total(networks) + network.addresses
  {
    assert (networks + [network])[..|networks|] == networks;
  }

  lemma AppendMark(before: seq<Network>, network: Network, marks: seq<bool>, fits: bool)
    requires |marks| == |before|
    ensures Marked(before + [network], marks + [fits], fits) == Marked(before, marks, fits) + [network]
    ensures Marked(before + [network], marks + [fits], !fits) == Marked(before, marks, !fits)
  {
    assert (before + [network])[..|before|] == before && (marks + [fits])[..|before|] == marks;
  }

  /**
   * Both sides keep the order; the covered total is within the limit; and nothing is skipped if and only if all
   * candidates together fit.
   */
  method FromNetworks(candidates: seq<Network>, limit: nat) returns (scope: SweepScope, ghost marks: seq<bool>)
    ensures |marks| == |candidates| && FitInTurn(candidates, marks, limit)
    ensures scope == SweepScope(limit, Marked(candidates, marks, true), Marked(candidates, marks, false))
    ensures Total(scope.networks) <= limit
    ensures scope.Complete() <==> Total(candidates) <= limit
  {
    var covered: seq<Network>, skipped: seq<Network> := [], [];
    var room := limit;
    marks := [];
    for i := 0 to |candidates|
      invariant |marks| == i && FitInTurn(candidates, marks, limit)
      invariant covered == Marked(candidates[..i], marks, true) && skipped == Marked(candidates[..i], marks, false)
      invariant room == limit - Total(covered) && room >= 0
      invariant skipped == [] <==> Total(candidates[..i]) <= limit
    {
      var network := candidates[i];
      TotalSplits(candidates[..i], marks);
      FitsOneMore(candidates, marks, network.addresses <= room, limit);
      AppendMark(candidates[..i], network, marks, network.addresses <= room);
      AppendNetwork(candidates[..i], network);
      AppendNetwork(covered, network);
      assert candidates[..i + 1] == candidates[..i] + [network];
      assert Total([]) == 0;
      hide Marked, Total, FitInTurn;
      marks := marks + [network.addresses <= room];
      if network.addresses <= room {
        covered := covered + [network];
        room := room - network.addresses;
      } else {
        skipped := skipped + [network];
      }
    }
    assert candidates[..|candidates|] == candidates;
    return SweepScope(limit, covered, skipped), marks;
  }
}
