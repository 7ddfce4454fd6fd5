/** A fixed number of workers over one shared iterator, and the mapping rebuilt from what they finish out of order. */
module Pool {
  import opened Bytes

  /** `Ready` is about to take the next item, `Working` awaits one, `Done` found the iterator exhausted. */
  datatype Worker = Ready | Working(item: nat) | Done

  /** `next` is the iterator's position; `order` the items in the order they were finished. */
  datatype State = State(next: nat, workers: seq<Worker>, order: seq<nat>)

  function Start(concurrency: nat): State {
    State(0, seq(concurrency, _ => Ready), [])
  }

  /** The next thing worker `w` does: take an item, find there is none, or finish the one it has. */
  function Step(s: State, w: nat, count: nat): State
    requires w < |s.workers| && s.workers[w] != Done
  {
    match s.workers[w]
    case Ready =>
      if s.next < count then s.(next := s.next + 1, workers := s.workers[w := Working(s.next)])
      else s.(workers := s.workers[w := Done])
    case Working(item) => s.(order := s.order + [item], workers := s.workers[w := Ready])
  }

  predicate AllDone(s: State) {
    forall w :: 0 <= w < |s.workers| ==> s.workers[w] == Done
  }

  /** A schedule: which worker moves at each moment. None where it names one that cannot. */
  function Run(schedule: seq<nat>, concurrency: nat, count: nat): Option<State> {
    if |schedule| == 0 then Some(Start(concurrency))
    else
      var before := Run(schedule[..|schedule| - 1], concurrency, count);
      var w := schedule[|schedule| - 1];
      if before.Some? && w < |before.value.workers| && before.value.workers[w] != Done
        then Some(Step(before.value, w, count)) else None
  }

  predicate Distinct(order: seq<nat>) {
    forall i, j :: 0 <= i < j < |order| ==> order[i] != order[j]
  }

  predicate HeldBy(s: State, item: nat) {
    exists w :: 0 <= w < |s.workers| && s.workers[w] == Working(item)
  }

  /** Every item taken is finished once or held by exactly one worker, and no worker gives up while items remain. */
  ghost predicate Sound(s: State, count: nat) {
    && s.next <= count
    && Distinct(s.order)
    && (forall item :: item in s.order ==> item < s.next && !HeldBy(s, item))
    && (forall w :: 0 <= w < |s.workers| && s.workers[w].Working? ==> s.workers[w].item < s.next)
    && (forall v, w :: 0 <= v < w < |s.workers| && s.workers[v].Working? ==> s.workers[v] != s.workers[w])
    && (forall item :: 0 <= item < s.next ==> item in s.order || HeldBy(s, item))
    && (forall w :: 0 <= w < |s.workers| && s.workers[w] == Done ==> s.next == count)
  }

  lemma StepIsSound(s: State, w: nat, count: nat)
    requires Sound(s, count) && w < |s.workers| && s.workers[w] != Done
    ensures Sound(Step(s, w, count), count)
    ensures |Step(s, w, count).workers| == |s.workers|
  {
    var s' := Step(s, w, count);
    forall item | HeldBy(s', item) ensures HeldBy(s, item) || (s.workers[w] == Ready && item == s.next) {
      var v :| 0 <= v < |s'.workers| && s'.workers[v] == Working(item);
      assert v != w ==> s.workers[v] == Working(item);
    }
    forall item | HeldBy(s, item) ensures HeldBy(s', item) || s.workers[w] == Working(item) {
      var v :| 0 <= v < |s.workers| && s.workers[v] == Working(item);
      assert v != w ==> s'.workers[v] == Working(item);
    }
    match s.workers[w]
    case Ready =>
      if s.next < count {
        assert s'.workers[w] == Working(s.next);
      }
    case Working(item) =>
      assert HeldBy(s, item);
      assert item !in s.order;
      assert s'.order[|s.order|] == item;
      forall v | 0 <= v < |s'.workers| ensures s'.workers[v] != Working(item) {
        if v != w {
          assert s.workers[v] != s.workers[w];
        }
      }
      assert !HeldBy(s', item);
  }

  /** What is left to do, in moves. */
  function Remaining(s: State, count: nat): nat {
    (if s.next < count then 3 * (count - s.next) else 0) + Moves(s.workers)
  }

  function Moves(workers: seq<Worker>): nat {
    if |workers| == 0 then 0
    else (match workers[0] case Ready => 1 case Working(_) => 2 case Done => 0) + Moves(workers[1..])
  }

  lemma {:induction false} MovesOf(workers: seq<Worker>, w: nat, now: Worker)
    requires w < |workers|
    ensures Moves(workers[w := now]) - Moves([now]) == Moves(workers) - Moves([workers[w]])
  {
    if w > 0 {
      MovesOf(workers[1..], w - 1, now);
      assert workers[w := now][1..] == workers[1..][w - 1 := now];
    } else {
      assert workers[0 := now][1..] == workers[1..];
    }
  }

  lemma StepMakesProgress(s: State, w: nat, count: nat)
    requires w < |s.workers| && s.workers[w] != Done
    ensures Remaining(Step(s, w, count), count) < Remaining(s, count)
  {
    MovesOf(s.workers, w, Step(s, w, count).workers[w]);
  }

  function Held(workers: seq<Worker>): set<nat> {
    set w | 0 <= w < |workers| && workers[w].Working? :: workers[w].item
  }

  lemma {:induction false} HeldIsBounded(workers: seq<Worker>)
    ensures |Held(workers)| <= |workers|
  {
    if |workers| == 0 {
    } else {
      var last := |workers| - 1;
      HeldIsBounded(workers[..last]);
      var rest := Held(workers[..last]);
      assert Held(workers) <= rest + (if workers[last].Working? then {workers[last].item} else {}) by {
        forall item | item in Held(workers)
          ensures item in rest + (if workers[last].Working? then {workers[last].item} else {}) {
          var w :| 0 <= w < |workers| && workers[w] == Working(item);
          assert w < last ==> workers[..last][w] == Working(item);
        }
      }
      Subset(Held(workers), rest + (if workers[last].Working? then {workers[last].item} else {}));
    }
  }

  lemma {:induction false} Subset(a: set<nat>, b: set<nat>)
    requires a <= b
    ensures |a| <= |b|
  {
    assert b == a + (b - a);
  }

  /**
   * Under every schedule: sound throughout, never more items in flight than workers, and over after a bounded number
   * of moves.
   */
  lemma {:induction false} EveryScheduleIsSound(schedule: seq<nat>, concurrency: nat, count: nat)
    requires Run(schedule, concurrency, count).Some?
    ensures var s := Run(schedule, concurrency, count).value;
            && Sound(s, count)
            && |s.workers| == concurrency
            && (forall item :: item in Held(s.workers) <==> HeldBy(s, item))
            && |Held(s.workers)| <= concurrency
            && |schedule| + Remaining(s, count) <= 3 * count + concurrency
    decreases |schedule|
  {
    var s := Run(schedule, concurrency, count).value;
    if |schedule| == 0 {
      StartMoves(concurrency);
    } else {
      var init, w := schedule[..|schedule| - 1], schedule[|schedule| - 1];
      EveryScheduleIsSound(init, concurrency, count);
      StepIsSound(Run(init, concurrency, count).value, w, count);
      StepMakesProgress(Run(init, concurrency, count).value, w, count);
    }
    HeldIsBounded(s.workers);
  }

  lemma {:induction false} StartMoves(concurrency: nat)
    ensures Moves(seq(concurrency, _ => Ready)) == concurrency
  {
    if concurrency == 0 {
    } else {
      StartMoves(concurrency - 1);
      assert seq(concurrency, _ => Ready)[1..] == seq(concurrency - 1, _ => Ready);
    }
  }

  /** When no worker can move, every item has been finished exactly once. */
  ghost predicate IsPermutation(order: seq<nat>, count: nat) {
    Distinct(order) && forall item :: item in order <==> 0 <= item < count
  }

  function Elements(order: seq<nat>): set<nat> {
    set item | item in order
  }

  lemma {:induction false} DistinctCount(order: seq<nat>)
    requires Distinct(order)
    ensures |Elements(order)| == |order|
  {
    if |order| == 0 {
      assert Elements(order) == {};
    } else {
      var init, last := order[..|order| - 1], order[|order| - 1];
      DistinctCount(init);
      assert order == init + [last];
      assert last !in init;
      assert Elements(order) == Elements(init) + {last};
    }
  }

  function Below(count: nat): set<nat> {
    if count == 0 then {} else Below(count - 1) + {count - 1}
  }

  lemma {:induction false} BelowIs(count: nat)
    ensures |Below(count)| == count
    ensures forall item: nat :: item in Below(count) <==> item < count
  {
    if count == 0 {
    } else {
      BelowIs(count - 1);
    }
  }

  lemma DoneMeansFinished(s: State, count: nat)
    requires Sound(s, count) && |s.workers| > 0 && AllDone(s)
    ensures IsPermutation(s.order, count) && |s.order| == count
  {
    assert s.workers[0] == Done;
    DistinctCount(s.order);
    BelowIs(count);
    assert Elements(s.order) == Below(count);
  }

  /** The pool with an arbitrary scheduler: `work` may say anything of an item, and is asked about each exactly once. */
  method GatherBounded<T, R>(items: seq<T>, work: T -> R, concurrency: int)
    returns (results: Result<seq<R>, int>, ghost order: seq<nat>)
    ensures results.Err? <==> concurrency < 1
    ensures results.Ok? ==>
              && IsPermutation(order, |items|)
              && |results.value| == |order| == |items|
              && forall k :: 0 <= k < |order| ==> order[k] < |items| && results.value[k] == work(items[order[k]])
  {
    order := [];
    if concurrency < 1 {
      return Err(concurrency), [];
    }
    var pending := 0;
    var workers := seq(concurrency, _ => Ready);
    var gathered: seq<R> := [];
    while exists w :: 0 <= w < |workers| && workers[w] != Done
      invariant |workers| == concurrency
      invariant Sound(State(pending, workers, order), |items|)
      invariant |gathered| == |order|
      invariant forall k :: 0 <= k < |order| ==> order[k] < |items| && gathered[k] == work(items[order[k]])
      decreases Remaining(State(pending, workers, order), |items|)
    {
      var w :| 0 <= w < |workers| && workers[w] != Done;
      ghost var before := State(pending, workers, order);
      StepIsSound(before, w, |items|);
      StepMakesProgress(before, w, |items|);
      match workers[w]
      case Ready =>
        if pending < |items| {
          workers := workers[w := Working(pending)];
          pending := pending + 1;
        } else {
          workers := workers[w := Done];
        }
      case Working(item) =>
        gathered := gathered + [work(items[item])];
        order := order + [item];
        workers := workers[w := Ready];
      assert State(pending, workers, order) == Step(before, w, |items|);
    }
    DoneMeansFinished(State(pending, workers, order), |items|);
    return Ok(gathered), order;
  }

  // ---------------------------------------------------------------- back to the hosts

  /** list(dict.fromkeys(hosts)). */
  function Unique(hosts: seq<string>): seq<string> {
    if |hosts| == 0 then []
    else
      var before := Unique(hosts[..|hosts| - 1]);
      if hosts[|hosts| - 1] in before then before else before + [hosts[|hosts| - 1]]
  }

  lemma {:induction false} UniqueIsUnique(hosts: seq<string>)
    ensures forall i, j :: 0 <= i < j < |Unique(hosts)| ==> Unique(hosts)[i] != Unique(hosts)[j]
    ensures forall h :: h in Unique(hosts) <==> h in hosts
  {
    if |hosts| == 0 {
    } else {
      UniqueIsUnique(hosts[..|hosts| - 1]);
      assert hosts == hosts[..|hosts| - 1] + [hosts[|hosts| - 1]];
    }
  }

  /** Each host keeps the place of its first mention, whatever is mentioned later. */
  lemma {:induction false} UniqueOnlyGrows(hosts: seq<string>, more: seq<string>)
    ensures Unique(hosts) <= Unique(hosts + more)
    decreases |more|
  {
    if |more| == 0 {
      assert hosts + more == hosts;
    } else {
      var init, last := more[..|more| - 1], more[|more| - 1];
      UniqueOnlyGrows(hosts, init);
      assert (hosts + more)[..|hosts + more| - 1] == hosts + init;
    }
  }

  /** Every distinct host with its own result, in the order the hosts were first given. */
  method GatherByHost<V>(hosts: seq<string>, grab: string -> V, concurrency: int)
    returns (result: Result<seq<(string, V)>, int>)
    ensures result.Err? <==> concurrency < 1
    ensures result.Ok? ==> |result.value| == |Unique(hosts)|
    ensures result.Ok? ==> forall i :: 0 <= i < |result.value| ==>
            result.value[i] == (Unique(hosts)[i], grab(Unique(hosts)[i]))
  {
    var unique := Unique(hosts);
    UniqueIsUnique(hosts);
    var pairs, order := GatherBounded(unique, (host: string) => (host, grab(host)), concurrency);
    if pairs.Err? {
      return Err(concurrency);
    }
    var completed: map<string, V> := map[];
    for k := 0 to |pairs.value|
      invariant forall host :: host in completed <==> exists j :: 0 <= j < k && pairs.value[j].0 == host
      invariant forall host :: host in completed ==> completed[host] == grab(host)
    {
      completed := completed[pairs.value[k].0 := pairs.value[k].1];
    }
    var rows: seq<(string, V)> := [];
    for i := 0 to |unique|
      invariant |rows| == i
      invariant forall j :: 0 <= j < i ==> rows[j] == (unique[j], grab(unique[j]))
    {
      assert i in order;
      ghost var k :| 0 <= k < |order| && order[k] == i;
      assert pairs.value[k].0 == unique[i];
      rows := rows + [(unique[i], completed[unique[i]])];
    }
    return Ok(rows);
  }
}
