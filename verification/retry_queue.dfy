/**
 The batched retry queue of test.cxx.  Whether a send succeeds is decided by an oracle that may look at
 everything sent before and at the request, so every behaviour of `sendRequest` is that of an oracle.
 */
module RetryModel {
  import opened Arithmetic

  type Request = string

  datatype Send = Send(request: Request, ok: bool)

  type Oracle = (seq<Send>, Request) -> bool

  /** The queue and everything sent so far. */
  datatype State = State(queue: seq<Request>, trace: seq<Send>)

  /** One attempt: the front request is sent and, if that fails, goes to the back. */
  function Attempt(s: State, oracle: Oracle): State {
    if s.queue == [] then s
    else
      var request := s.queue[0];
      var ok := oracle(s.trace, request);
      State(s.queue[1..] + (if ok then [] else [request]), s.trace + [Send(request, ok)])
  }

  /** The unbatched loop after n attempts; it stays put once the queue is empty. */
  function Flat(s: State, oracle: Oracle, n: nat): State {
    if n == 0 then s else Attempt(Flat(s, oracle, n - 1), oracle)
  }

  lemma {:induction false} FlatSplit(s: State, oracle: Oracle, m: nat, n: nat)
    ensures Flat(Flat(s, oracle, m), oracle, n) == Flat(s, oracle, m + n)
  {
    if n > 0 {
      FlatSplit(s, oracle, m, n - 1);
    }
  }

  lemma {:induction false} FlatRests(s: State, oracle: Oracle, m: nat, n: nat)
    requires Flat(s, oracle, m).queue == [] && m <= n
    ensures Flat(s, oracle, n) == Flat(s, oracle, m)
  {
    if m < n {
      FlatRests(s, oracle, m, n - 1);
    }
  }

  lemma {:induction false} TraceIsHistory(s: State, oracle: Oracle, m: nat, n: nat)
    requires m <= n
    ensures Flat(s, oracle, m).trace <= Flat(s, oracle, n).trace
  {
    if m < n {
      TraceIsHistory(s, oracle, m, n - 1);
    }
  }

  // ---------------------------------------------------------------- conservation

  function Succeeded(trace: seq<Send>): seq<Request> {
    if trace == [] then []
    else
      var last := trace[|trace| - 1];
      Succeeded(trace[..|trace| - 1]) + if last.ok then [last.request] else []
  }

  function Failures(trace: seq<Send>): nat {
    if trace == [] then 0
    else Failures(trace[..|trace| - 1]) + if trace[|trace| - 1].ok then 0 else 1
  }

  lemma TraceGrows(trace: seq<Send>, send: Send)
    ensures Succeeded(trace + [send]) == Succeeded(trace) + if send.ok then [send.request] else []
    ensures Failures(trace + [send]) == Failures(trace) + if send.ok then 0 else 1
  {
    assert (trace + [send])[..|trace + [send]| - 1] == trace;
  }

  /** What succeeded and what is queued, as a multiset. */
  function Accounted(s: State): multiset<Request> {
    multiset(Succeeded(s.trace)) + multiset(s.queue)
  }

  /** Sends made and still due, less the failures. */
  function Balance(s: State): int {
    |s.trace| + |s.queue| - Failures(s.trace)
  }

  lemma AttemptAccounted(s: State, oracle: Oracle)
    ensures Accounted(Attempt(s, oracle)) == Accounted(s)
  {
    if s.queue != [] {
      var request := s.queue[0];
      TraceGrows(s.trace, Send(request, oracle(s.trace, request)));
      assert s.queue == [request] + s.queue[1..];
    }
  }

  lemma AttemptBalance(s: State, oracle: Oracle)
    ensures Balance(Attempt(s, oracle)) == Balance(s)
  {
    if s.queue != [] {
      TraceGrows(s.trace, Send(s.queue[0], oracle(s.trace, s.queue[0])));
    }
  }

  /** How many attempts were made: all that found a request. */
  lemma {:induction false} TraceLength(q: seq<Request>, oracle: Oracle, n: nat)
    ensures var s := Flat(State(q, []), oracle, n);
            && |s.trace| <= n && (s.queue != [] ==> |s.trace| == n)
            && (n > 0 && Flat(State(q, []), oracle, n - 1).queue != [] ==> |s.trace| == n)
  {
    if n > 0 {
      TraceLength(q, oracle, n - 1);
    }
  }

  lemma {:induction false} FlatAccounted(s: State, oracle: Oracle, n: nat)
    ensures Accounted(Flat(s, oracle, n)) == Accounted(s)
  {
    if n > 0 {
      FlatAccounted(s, oracle, n - 1);
      AttemptAccounted(Flat(s, oracle, n - 1), oracle);
    }
  }

  lemma {:induction false} FlatBalance(s: State, oracle: Oracle, n: nat)
    ensures Balance(Flat(s, oracle, n)) == Balance(s)
  {
    if n > 0 {
      FlatBalance(s, oracle, n - 1);
      AttemptBalance(Flat(s, oracle, n - 1), oracle);
    }
  }

  /** Nothing is lost or doubled at any step, and every send is a success or a counted failure. */
  lemma Conservation(q: seq<Request>, oracle: Oracle, n: nat)
    ensures var s := Flat(State(q, []), oracle, n);
            && multiset(Succeeded(s.trace)) + multiset(s.queue) == multiset(q)
            && |s.trace| + |s.queue| == |q| + Failures(s.trace)
  {
    FlatAccounted(State(q, []), oracle, n);
    FlatBalance(State(q, []), oracle, n);
    assert multiset(Succeeded([])) + multiset(q) == multiset(q);
  }

  // ---------------------------------------------------------------- batches

  /** The unbatched loop needs exactly `total` attempts. */
  ghost predicate DrainsAfter(s: State, oracle: Oracle, total: nat) {
    && Flat(s, oracle, total).queue == []
    && forall n: nat :: n < total ==> Flat(s, oracle, n).queue != []
  }

  /** Once drained, more attempts change nothing; before, there is something to do. */
  lemma DrainedFrom(s: State, oracle: Oracle, total: nat, n: nat)
    requires DrainsAfter(s, oracle, total)
    ensures Flat(s, oracle, n).queue == [] <==> total <= n
    ensures total <= n ==> Flat(s, oracle, n) == Flat(s, oracle, total)
  {
    if total <= n {
      FlatRests(s, oracle, total, n);
    }
  }

  /** A drained run succeeded once for every request, and its length counts requests and failures. */
  lemma DrainedRun(q: seq<Request>, oracle: Oracle, total: nat)
    requires DrainsAfter(State(q, []), oracle, total)
    ensures var trace := Flat(State(q, []), oracle, total).trace;
            && total == |trace| == |q| + Failures(trace)
            && multiset(Succeeded(trace)) == multiset(q)
  {
    Conservation(q, oracle, total);
    TraceLength(q, oracle, total);
    assert total > 0 ==> Flat(State(q, []), oracle, total - 1).queue != [];
  }

  lemma RoundsFromTotal(s: State, oracle: Oracle, total: nat, batchSize: nat, rounds: nat)
    requires batchSize > 0 && DrainsAfter(s, oracle, total)
    requires Flat(s, oracle, rounds * batchSize).queue == []
    requires rounds > 0 ==> Flat(s, oracle, (rounds - 1) * batchSize).queue != []
    ensures rounds == CeilDiv(total, batchSize)
    ensures Flat(s, oracle, rounds * batchSize) == Flat(s, oracle, total)
  {
    DrainedFrom(s, oracle, total, rounds * batchSize);
    if rounds == 0 {
      CeilDivUnique(total, batchSize, 0);
    } else {
      RoundBefore(s, oracle, total, batchSize, rounds - 1);
      CeilDivUnique(total, batchSize, rounds);
    }
  }

  lemma RoundBefore(s: State, oracle: Oracle, total: nat, batchSize: nat, before: nat)
    requires DrainsAfter(s, oracle, total) && Flat(s, oracle, before * batchSize).queue != []
    ensures before * batchSize < total
  {
    DrainedFrom(s, oracle, total, before * batchSize);
  }

  /**
   What a run of the outer loop that stopped after `rounds` rounds amounts to: it is the unbatched run,
   all of it, and the number of rounds follows from the number of failures.
   */
  lemma BatchCount(q: seq<Request>, oracle: Oracle, total: nat, batchSize: nat, rounds: nat)
    requires batchSize > 0 && DrainsAfter(State(q, []), oracle, total)
    requires Flat(State(q, []), oracle, rounds * batchSize).queue == []
    requires forall r :: 0 <= r < rounds ==> Flat(State(q, []), oracle, r * batchSize).queue != []
    ensures var s := Flat(State(q, []), oracle, total);
            && Flat(State(q, []), oracle, rounds * batchSize) == s
            && total == |s.trace| == |q| + Failures(s.trace)
            && rounds == CeilDiv(|q| + Failures(s.trace), batchSize)
            && multiset(Succeeded(s.trace)) == multiset(q)
  {
    DrainedRun(q, oracle, total);
    RoundsFromTotal(State(q, []), oracle, total, batchSize, rounds);
  }

  /** Batches get to the end exactly when they are real and single attempts do. */
  lemma BatchesDrain(q: seq<Request>, oracle: Oracle, batchSize: int)
    ensures (exists rounds: nat :: Flat(State(q, []), oracle, rounds * Max0(batchSize)).queue == [])
            <==> q == [] || (batchSize > 0 && exists total: nat :: Flat(State(q, []), oracle, total).queue == [])
  {
    var s := State(q, []);
    if q == [] {
      assert Flat(s, oracle, 0 * Max0(batchSize)).queue == [];
    } else if batchSize > 0 {
      if total: nat :| Flat(s, oracle, total).queue == [] {
        assert total <= total * batchSize;
        FlatRests(s, oracle, total, total * Max0(batchSize));
      }
    } else {
      forall rounds: nat ensures Flat(s, oracle, rounds * Max0(batchSize)).queue != [] {
        assert rounds * Max0(batchSize) == 0;
      }
    }
  }

  // ---------------------------------------------------------------- termination

  function FailuresOf(trace: seq<Send>, request: Request): nat {
    if trace == [] then 0
    else
      var last := trace[|trace| - 1];
      FailuresOf(trace[..|trace| - 1], request) + if last.request == request && !last.ok then 1 else 0
  }

  /** On this run no request fails more often than its bound. */
  ghost predicate RunFailsAtMost(s: State, oracle: Oracle, bound: Request -> nat) {
    forall n: nat, request: Request :: FailuresOf(Flat(s, oracle, n).trace, request) <= bound(request)
  }

  /** The failures still possible for the requests of a queue. */
  function Budget(q: seq<Request>, bound: Request -> nat, trace: seq<Send>): nat {
    if q == [] then 0
    else Max0(bound(q[0]) - FailuresOf(trace, q[0])) + Budget(q[1..], bound, trace)
  }

  function BoundSum(q: seq<Request>, bound: Request -> nat): nat {
    if q == [] then 0 else bound(q[0]) + BoundSum(q[1..], bound)
  }

  lemma {:induction false} BudgetConcat(a: seq<Request>, b: seq<Request>, bound: Request -> nat, trace: seq<Send>)
    ensures Budget(a + b, bound, trace) == Budget(a, bound, trace) + Budget(b, bound, trace)
  {
    if a == [] {
      assert a + b == b;
    } else {
      assert (a + b)[1..] == a[1..] + b;
      BudgetConcat(a[1..], b, bound, trace);
    }
  }

  lemma FailuresOfGrows(trace: seq<Send>, send: Send, request: Request)
    ensures FailuresOf(trace + [send], request) ==
            FailuresOf(trace, request) + if send.request == request && !send.ok then 1 else 0
  {
    assert (trace + [send])[..|trace + [send]| - 1] == trace;
  }

  lemma {:induction false} BudgetShrinks(q: seq<Request>, bound: Request -> nat, trace: seq<Send>, send: Send)
    ensures Budget(q, bound, trace + [send]) <= Budget(q, bound, trace)
  {
    if q != [] {
      FailuresOfGrows(trace, send, q[0]);
      BudgetShrinks(q[1..], bound, trace, send);
    }
  }

  lemma {:induction false} InitialBudget(q: seq<Request>, bound: Request -> nat)
    ensures Budget(q, bound, []) == BoundSum(q, bound)
  {
    if q != [] {
      InitialBudget(q[1..], bound);
    }
  }

  function Measure(s: State, bound: Request -> nat): nat {
    |s.queue| + Budget(s.queue, bound, s.trace)
  }

  /** An attempt lowers the measure, unless the request fails more often than its bound. */
  lemma AttemptLowersMeasure(s: State, oracle: Oracle, bound: Request -> nat)
    requires s.queue != [] && FailuresOf(Attempt(s, oracle).trace, s.queue[0]) <= bound(s.queue[0])
    ensures Measure(Attempt(s, oracle), bound) < Measure(s, bound)
  {
    var x := s.queue[0];
    var rest := s.queue[1..];
    var send := Send(x, oracle(s.trace, x));
    BudgetShrinks(rest, bound, s.trace, send);
    if send.ok {
      assert rest + [] == rest;
    } else {
      BudgetConcat(rest, [x], bound, s.trace + [send]);
      FailuresOfGrows(s.trace, send, x);
      assert [x][1..] == [];
    }
  }

  lemma BoundHoldsOn(s: State, oracle: Oracle, bound: Request -> nat)
    requires RunFailsAtMost(s, oracle, bound)
    ensures RunFailsAtMost(Attempt(s, oracle), oracle, bound)
  {
    forall n: nat, request: Request
      ensures FailuresOf(Flat(Attempt(s, oracle), oracle, n).trace, request) <= bound(request)
    {
      FlatSplit(s, oracle, 1, n);
      assert Flat(s, oracle, 1) == Attempt(Flat(s, oracle, 0), oracle);
      assert FailuresOf(Flat(s, oracle, 1 + n).trace, request) <= bound(request);
    }
  }

  lemma {:induction false} DrainsWithin(s: State, oracle: Oracle, bound: Request -> nat) returns (total: nat)
    requires RunFailsAtMost(s, oracle, bound)
    ensures DrainsAfter(s, oracle, total) && total <= Measure(s, bound)
    decreases Measure(s, bound)
  {
    if s.queue == [] {
      total := 0;
    } else {
      var t := Attempt(s, oracle);
      assert Flat(s, oracle, 1) == Attempt(Flat(s, oracle, 0), oracle) == t;
      assert FailuresOf(Flat(s, oracle, 1).trace, s.queue[0]) <= bound(s.queue[0]);
      AttemptLowersMeasure(s, oracle, bound);
      BoundHoldsOn(s, oracle, bound);
      var k := DrainsWithin(t, oracle, bound);
      total := k + 1;
      DrainsLater(s, oracle, k);
    }
  }

  lemma DrainsLater(s: State, oracle: Oracle, k: nat)
    requires s.queue != [] && DrainsAfter(Attempt(s, oracle), oracle, k)
    ensures DrainsAfter(s, oracle, k + 1)
  {
    var t := Attempt(s, oracle);
    assert Flat(s, oracle, 1) == Attempt(Flat(s, oracle, 0), oracle) == t;
    FlatSplit(s, oracle, 1, k);
    forall n: nat | n < k + 1 ensures Flat(s, oracle, n).queue != [] {
      if n > 0 {
        FlatSplit(s, oracle, 1, n - 1);
        assert Flat(t, oracle, n - 1).queue != [];
      }
    }
  }

  /** A run on which each request fails finitely often ends, after at most one send per request and failure. */
  lemma FiniteFailuresDrain(q: seq<Request>, oracle: Oracle, bound: Request -> nat) returns (total: nat)
    requires RunFailsAtMost(State(q, []), oracle, bound)
    ensures DrainsAfter(State(q, []), oracle, total)
    ensures total <= |q| + BoundSum(q, bound)
    ensures var trace := Flat(State(q, []), oracle, total).trace;
            && total == |trace| == |q| + Failures(trace)
            && multiset(Succeeded(trace)) == multiset(q)
  {
    total := DrainsWithin(State(q, []), oracle, bound);
    InitialBudget(q, bound);
    DrainedRun(q, oracle, total);
  }

  /** How often a request fails on a run, however long, does not exceed b. */
  ghost predicate FailsAtMost(s: State, oracle: Oracle, request: Request, b: nat) {
    forall n: nat :: FailuresOf(Flat(s, oracle, n).trace, request) <= b
  }

  ghost predicate FailsFinitelyOften(s: State, oracle: Oracle, request: Request) {
    exists b: nat :: FailsAtMost(s, oracle, request, b)
  }

  ghost function BoundOf(s: State, oracle: Oracle, request: Request): (b: nat)
    ensures FailsFinitelyOften(s, oracle, request) ==> FailsAtMost(s, oracle, request, b)
  {
    if b: nat :| FailsAtMost(s, oracle, request, b) then b else 0
  }

  lemma {:induction false} PrefixFailures(trace: seq<Send>, more: seq<Send>, request: Request)
    ensures FailuresOf(trace, request) <= FailuresOf(trace + more, request)
  {
    if more == [] {
      assert trace + more == trace;
    } else {
      var init := more[..|more| - 1];
      PrefixFailures(trace, init, request);
      assert trace + more == (trace + init) + [more[|more| - 1]];
      FailuresOfGrows(trace + init, more[|more| - 1], request);
    }
  }

  /** A run that ends has only the failures it had by then. */
  lemma DrainedFailures(s: State, oracle: Oracle, total: nat, request: Request)
    requires Flat(s, oracle, total).queue == []
    ensures FailsAtMost(s, oracle, request, FailuresOf(Flat(s, oracle, total).trace, request))
  {
    var end := Flat(s, oracle, total).trace;
    forall n: nat ensures FailuresOf(Flat(s, oracle, n).trace, request) <= FailuresOf(end, request) {
      if total <= n {
        FlatRests(s, oracle, total, n);
      } else {
        var part := Flat(s, oracle, n).trace;
        TraceIsHistory(s, oracle, n, total);
        PrefixFailures(part, end[|part|..], request);
        assert part + end[|part|..] == end;
      }
    }
  }

  /** The unbatched loop ends exactly on the runs on which no request fails for ever. */
  lemma DrainsExactly(q: seq<Request>, oracle: Oracle)
    ensures (exists total: nat :: Flat(State(q, []), oracle, total).queue == [])
            <==> forall request :: FailsFinitelyOften(State(q, []), oracle, request)
  {
    var s := State(q, []);
    if total: nat :| Flat(s, oracle, total).queue == [] {
      forall request ensures FailsFinitelyOften(s, oracle, request) {
        DrainedFailures(s, oracle, total, request);
      }
    }
    if forall request :: FailsFinitelyOften(s, oracle, request) {
      var bound := request => BoundOf(s, oracle, request);
      forall n: nat, request: Request ensures FailuresOf(Flat(s, oracle, n).trace, request) <= bound(request) {
        assert FailsAtMost(s, oracle, request, bound(request));
      }
      var total := FiniteFailuresDrain(q, oracle, bound);
      assert Flat(s, oracle, total).queue == [];
    }
  }

  /** The outer loop ends exactly when there is nothing to do, or batches are real and no request fails for ever. */
  lemma TerminatesExactly(q: seq<Request>, oracle: Oracle, batchSize: int)
    ensures (exists rounds: nat :: Flat(State(q, []), oracle, rounds * Max0(batchSize)).queue == [])
            <==> q == [] || (batchSize > 0 && forall request :: FailsFinitelyOften(State(q, []), oracle, request))
  {
    BatchesDrain(q, oracle, batchSize);
    DrainsExactly(q, oracle);
  }

  // ---------------------------------------------------------------- fairness

  /** From any state the requests in the queue are the next ones to be sent, in queue order. */
  lemma {:induction false} QueueIsSentInOrder(s: State, oracle: Oracle, n: nat)
    requires n <= |s.queue|
    ensures var t := Flat(s, oracle, n);
            && |t.trace| == |s.trace| + n && s.trace <= t.trace
            && (forall i :: 0 <= i < n ==> t.trace[|s.trace| + i].request == s.queue[i])
            && s.queue[n..] <= t.queue
  {
    if n > 0 {
      QueueIsSentInOrder(s, oracle, n - 1);
      var u := Flat(s, oracle, n - 1);
      assert u.queue[0] == s.queue[n - 1..][0];
      assert s.queue[n..] == s.queue[n - 1..][1..];
    }
  }

  // ---- equal strings are different requests: each is known by its place in the initial queue, its slot

  /** The slots of the requests in the queue after n attempts. */
  function Slots(q: seq<Request>, oracle: Oracle, n: nat): (slots: seq<nat>)
    ensures |slots| == |Flat(State(q, []), oracle, n).queue|
  {
    if n == 0 then seq(|q|, i requires i >= 0 => i)
    else
      var s := Flat(State(q, []), oracle, n - 1);
      var slots := Slots(q, oracle, n - 1);
      if slots == [] then []
      else slots[1..] + if oracle(s.trace, s.queue[0]) then [] else [slots[0]]
  }

  predicate Distinct(slots: seq<nat>) {
    forall i, j :: 0 <= i < j < |slots| ==> slots[i] != slots[j]
  }

  /** The slots are those of the queued requests, each once. */
  lemma {:induction false} SlotsOfQueue(q: seq<Request>, oracle: Oracle, n: nat)
    ensures var slots := Slots(q, oracle, n);
            && Distinct(slots)
            && forall i :: 0 <= i < |slots| ==>
                 slots[i] < |q| && Flat(State(q, []), oracle, n).queue[i] == q[slots[i]]
  {
    if n > 0 {
      SlotsOfQueue(q, oracle, n - 1);
    }
  }

  /** Attempt n, counted from zero, is one of this slot. */
  predicate Attempts(q: seq<Request>, oracle: Oracle, n: nat, slot: nat) {
    var slots := Slots(q, oracle, n);
    slots != [] && slots[0] == slot
  }

  /** The trace of a run shows these attempts. */
  lemma TraceShowsAttempts(q: seq<Request>, oracle: Oracle, n: nat, i: nat)
    requires i < |Flat(State(q, []), oracle, n).trace|
    ensures var slots := Slots(q, oracle, i);
            && slots != [] && slots[0] < |q|
            && Flat(State(q, []), oracle, n).trace[i].request == q[slots[0]]
  {
    SentFromFront(q, oracle, n, i);
    SlotsOfQueue(q, oracle, i);
  }

  lemma SentFromFront(q: seq<Request>, oracle: Oracle, n: nat, i: nat)
    requires i < |Flat(State(q, []), oracle, n).trace|
    ensures var s := Flat(State(q, []), oracle, i);
            && i < n && |s.trace| == i && s.queue != []
            && Flat(State(q, []), oracle, n).trace[i] == Send(s.queue[0], oracle(s.trace, s.queue[0]))
  {
    TraceLength(q, oracle, n);
    var s := Flat(State(q, []), oracle, i);
    if s.queue == [] {
      FlatRests(State(q, []), oracle, i, n);
      TraceLength(q, oracle, i);
    } else {
      TraceLength(q, oracle, i);
      TraceIsHistory(State(q, []), oracle, i + 1, n);
    }
  }

  /** A request that succeeded does not come back. */
  lemma {:induction false} GoneForGood(q: seq<Request>, oracle: Oracle, m: nat, n: nat, slot: nat)
    requires m <= n && slot !in Slots(q, oracle, m)
    ensures slot !in Slots(q, oracle, n)
  {
    if m < n {
      GoneForGood(q, oracle, m, n - 1, slot);
    }
  }

  /** The waiting slots come up in order. */
  lemma {:induction false} WaitingComeUp(q: seq<Request>, oracle: Oracle, m: nat, k: nat)
    requires k < |Slots(q, oracle, m)|
    ensures Slots(q, oracle, m)[k..] <= Slots(q, oracle, m + k)
    ensures Attempts(q, oracle, m + k, Slots(q, oracle, m)[k])
  {
    var waiting := Slots(q, oracle, m);
    if k > 0 {
      WaitingComeUp(q, oracle, m, k - 1);
      var slots := Slots(q, oracle, m + k - 1);
      assert slots[1..] <= Slots(q, oracle, m + k);
      assert waiting[k..] == waiting[k - 1..][1..];
    }
    assert waiting[k..][0] == waiting[k];
  }

  /** Whoever is attempted again failed, and waits at the end of the queue. */
  lemma FailedIfAttemptedAgain(q: seq<Request>, oracle: Oracle, i: nat, j: nat, slot: nat)
    requires i < j && Attempts(q, oracle, i, slot) && Attempts(q, oracle, j, slot)
    ensures Slots(q, oracle, i + 1) == Slots(q, oracle, i)[1..] + [slot]
  {
    SlotsOfQueue(q, oracle, i);
    if slot !in Slots(q, oracle, i + 1) {
      GoneForGood(q, oracle, i + 1, j, slot);
    }
  }

  lemma ComesUp(q: seq<Request>, oracle: Oracle, m: nat, k: nat, slot: nat)
    requires k < |Slots(q, oracle, m)| && Slots(q, oracle, m)[k] == slot
    ensures Attempts(q, oracle, m + k, slot)
  {
    WaitingComeUp(q, oracle, m, k);
  }

  lemma AttemptAgain(q: seq<Request>, oracle: Oracle, i: nat, j: nat, slot: nat)
    requires i < j && Attempts(q, oracle, i, slot) && Attempts(q, oracle, j, slot)
    ensures Attempts(q, oracle, i + |Slots(q, oracle, i)|, slot)
  {
    FailedIfAttemptedAgain(q, oracle, i, j, slot);
    ComesUp(q, oracle, i + 1, |Slots(q, oracle, i)| - 1, slot);
  }

  /** Until all that wait were attempted, nobody is attempted again. */
  lemma NotBeforeTheOthers(q: seq<Request>, oracle: Oracle, i: nat, j: nat, slot: nat)
    requires i < j && Attempts(q, oracle, i, slot) && Attempts(q, oracle, j, slot)
    ensures j - i >= |Slots(q, oracle, i)|
  {
    SlotsOfQueue(q, oracle, i);
    if j - i < |Slots(q, oracle, i)| {
      WaitingComeUp(q, oracle, i, j - i);
    }
  }

  /**
   Between two consecutive attempts of a request, the requests that were waiting behind it at the first one
   are attempted once each, in the order of the queue, and nothing else is.
   */
  lemma OneRoundBetweenAttempts(q: seq<Request>, oracle: Oracle, i: nat, j: nat, slot: nat)
    requires i < j && Attempts(q, oracle, i, slot) && Attempts(q, oracle, j, slot)
    requires forall k :: i < k < j ==> !Attempts(q, oracle, k, slot)
    ensures var waiting := Slots(q, oracle, i);
            && j == i + |waiting|
            && forall k :: 0 < k < |waiting| ==> Attempts(q, oracle, i + k, waiting[k])
  {
    var waiting := Slots(q, oracle, i);
    SlotsOfQueue(q, oracle, i);
    AttemptAgain(q, oracle, i, j, slot);
    NotBeforeTheOthers(q, oracle, i, j, slot);
    forall k | 0 < k < |waiting| ensures Attempts(q, oracle, i + k, waiting[k]) {
      WaitingComeUp(q, oracle, i, k);
    }
  }

  function AttemptsOf(q: seq<Request>, oracle: Oracle, n: nat, slot: nat): nat {
    if n == 0 then 0
    else AttemptsOf(q, oracle, n - 1, slot) + if Attempts(q, oracle, n - 1, slot) then 1 else 0
  }

  /** The queue falls into two parts: attempted `level` times, and then attempted once more. */
  ghost predicate Levelled(q: seq<Request>, oracle: Oracle, n: nat, cut: nat, level: nat) {
    var slots := Slots(q, oracle, n);
    && cut <= |slots|
    && (forall i :: 0 <= i < cut ==> AttemptsOf(q, oracle, n, slots[i]) == level)
    && (forall i :: cut <= i < |slots| ==> AttemptsOf(q, oracle, n, slots[i]) == level + 1)
  }

  /** At any time the attempts of all pending requests differ by at most one, and who is next has the fewest. */
  lemma {:induction false} AttemptsStayLevel(q: seq<Request>, oracle: Oracle, n: nat) returns (cut: nat, level: nat)
    ensures Levelled(q, oracle, n, cut, level)
    ensures |Slots(q, oracle, n)| > 0 ==> cut > 0
  {
    if n == 0 {
      cut, level := |q|, 0;
      NoAttemptYet(q, oracle);
    } else if Slots(q, oracle, n - 1) == [] {
      cut, level := 0, 0;
    } else {
      var c, l := AttemptsStayLevel(q, oracle, n - 1);
      LevelStep(q, oracle, n - 1, c, l);
      cut, level := NextLevel(q, oracle, n, c - 1, l);
    }
  }

  lemma NoAttemptYet(q: seq<Request>, oracle: Oracle)
    ensures Levelled(q, oracle, 0, |q|, 0) && |Slots(q, oracle, 0)| == |q|
  {
  }

  lemma NextLevel(q: seq<Request>, oracle: Oracle, n: nat, cut: nat, level: nat) returns (cut': nat, level': nat)
    requires Levelled(q, oracle, n, cut, level)
    ensures Levelled(q, oracle, n, cut', level') && (Slots(q, oracle, n) != [] ==> cut' > 0)
  {
    cut', level' := cut, level;
    if cut == 0 {
      cut', level' := |Slots(q, oracle, n)|, level + 1;
    }
  }

  lemma LevelStep(q: seq<Request>, oracle: Oracle, n: nat, cut: nat, level: nat)
    requires Levelled(q, oracle, n, cut, level) && cut > 0
    ensures Levelled(q, oracle, n + 1, cut - 1, level)
  {
    SlotsOfQueue(q, oracle, n);
    var slots, next := Slots(q, oracle, n), Slots(q, oracle, n + 1);
    forall i | 0 <= i < |next|
      ensures AttemptsOf(q, oracle, n + 1, next[i]) == if i < cut - 1 then level else level + 1
    {
      if i < |slots| - 1 {
        assert next[i] == slots[i + 1] != slots[0];
      } else {
        assert next[i] == slots[0];
      }
    }
  }
}

/** test.cxx itself: `processBatch` over the shared queue. */
module RetryQueue {
  import opened Arithmetic
  import opened RetryModel

  class RequestQueue {
    var items: seq<Request>

    constructor (initial: seq<Request>)
      ensures items == initial
    {
      items := initial;
    }

    predicate Empty()
      reads this
    {
      items == []
    }

    method Pop() returns (front: Request)
      requires !Empty()
      modifies this
      ensures [front] + items == old(items)
    {
      front := items[0];
      items := items[1..];
    }

    method Push(request: Request)
      modifies this
      ensures items == old(items) + [request]
    {
      items := items + [request];
    }
  }

  /** The loop after so many rounds of a whole batch each. */
  ghost function AfterRounds(start: State, oracle: Oracle, batchSize: nat, rounds: nat): State {
    if rounds == 0 then start else Flat(AfterRounds(start, oracle, batchSize, rounds - 1), oracle, batchSize)
  }

  ghost predicate BusyFor(start: State, oracle: Oracle, batchSize: nat, rounds: nat) {
    forall r: nat :: r < rounds ==> AfterRounds(start, oracle, batchSize, r).queue != []
  }

  lemma OneMoreBatch(start: State, oracle: Oracle, batchSize: nat, before: nat, after: nat)
    requires after == before + batchSize
    ensures Flat(Flat(start, oracle, before), oracle, batchSize) == Flat(start, oracle, after)
  {
    FlatSplit(start, oracle, before, batchSize);
  }

  lemma {:induction false} RoundsAreAttempts(start: State, oracle: Oracle, batchSize: nat, rounds: nat)
    ensures AfterRounds(start, oracle, batchSize, rounds) == Flat(start, oracle, rounds * batchSize)
  {
    if rounds > 0 {
      RoundsAreAttempts(start, oracle, batchSize, rounds - 1);
      Distribute(rounds, 1, batchSize);
      OneMoreBatch(start, oracle, batchSize, (rounds - 1) * batchSize, rounds * batchSize);
    }
  }

  lemma BusyUnbatched(start: State, oracle: Oracle, batchSize: nat, rounds: nat)
    requires BusyFor(start, oracle, batchSize, rounds)
    ensures forall r: nat :: r < rounds ==> Flat(start, oracle, r * batchSize).queue != []
  {
    forall r: nat | r < rounds ensures Flat(start, oracle, r * batchSize).queue != [] {
      RoundsAreAttempts(start, oracle, batchSize, r);
    }
  }

  /** A batch that ran its full length, or until the queue was empty, is `batchSize` attempts. */
  lemma EndOfBatch(before: State, oracle: Oracle, batchSize: nat, i: nat)
    requires i <= batchSize && (i < batchSize ==> Flat(before, oracle, i).queue == [])
    ensures Flat(before, oracle, i) == Flat(before, oracle, batchSize)
  {
    if i < batchSize {
      FlatRests(before, oracle, i, batchSize);
    }
  }

  /**
   `processBatch`, watched for at most `limit` rounds.  Whatever the batch size, the sends are those of the
   unbatched loop, `rounds * batchSize` of them unless the queue runs empty; and it stops at the first round
   that finds the queue empty.
   */
  method ProcessBatch(requestQueue: RequestQueue, batchSize: int, oracle: Oracle, limit: nat)
    returns (trace: seq<Send>, rounds: nat)
    modifies requestQueue
    ensures State(requestQueue.items, trace) ==
            Flat(State(old(requestQueue.items), []), oracle, rounds * Max0(batchSize))
    ensures forall r :: 0 <= r < rounds ==>
              Flat(State(old(requestQueue.items), []), oracle, r * Max0(batchSize)).queue != []
    ensures rounds < limit ==> requestQueue.items == []
    ensures rounds <= limit
  {
    ghost var start := State(requestQueue.items, []);
    ghost var batch := Max0(batchSize);
    trace, rounds := [], 0;
    while rounds < limit
      invariant rounds <= limit
      invariant State(requestQueue.items, trace) == AfterRounds(start, oracle, batch, rounds)
      invariant BusyFor(start, oracle, batch, rounds)
    {
      if requestQueue.Empty() {
        break;
      }
      ghost var before := State(requestQueue.items, trace);
      var i := 0;
      while i < batchSize && !requestQueue.Empty()
        invariant 0 <= i <= batch
        invariant State(requestQueue.items, trace) == Flat(before, oracle, i)
      {
        ghost var current := State(requestQueue.items, trace);
        var request := requestQueue.Pop();
        var ok := oracle(trace, request);
        trace := trace + [Send(request, ok)];
        if !ok {
          requestQueue.Push(request);
        }
        assert State(requestQueue.items, trace) == Attempt(current, oracle);
        i := i + 1;
      }
      EndOfBatch(before, oracle, batch, i);
      rounds := rounds + 1;
    }
    RoundsAreAttempts(start, oracle, batch, rounds);
    BusyUnbatched(start, oracle, batch, rounds);
  }

  /** What has been done after so many rounds, if that is enough of them. */
  lemma RoundsFinish(q: seq<Request>, batchSize: nat, oracle: Oracle, bound: Request -> nat, limit: nat, rounds: nat)
    requires batchSize > 0 && RunFailsAtMost(State(q, []), oracle, bound) && limit > |q| + BoundSum(q, bound)
    requires forall r :: 0 <= r < rounds ==> Flat(State(q, []), oracle, r * batchSize).queue != []
    requires rounds < limit ==> Flat(State(q, []), oracle, rounds * batchSize).queue == []
    ensures var end := Flat(State(q, []), oracle, rounds * batchSize);
            && end.queue == [] && multiset(Succeeded(end.trace)) == multiset(q)
            && |end.trace| == |q| + Failures(end.trace) <= |q| + BoundSum(q, bound)
            && rounds == CeilDiv(|q| + Failures(end.trace), batchSize)
  {
    var total := FiniteFailuresDrain(q, oracle, bound);
    FinishedInTime(State(q, []), oracle, total, batchSize, limit, rounds);
    BatchCount(q, oracle, total, batchSize, rounds);
  }

  /**
   `processBatch` to its end: if each request fails finitely often on the run, every request succeeds once, and the
   number of rounds follows from the number of failures.
   */
  method ProcessBatchToTheEnd(requestQueue: RequestQueue, batchSize: int, oracle: Oracle, ghost bound: Request -> nat,
                              limit: nat)
    returns (trace: seq<Send>, rounds: nat)
    requires batchSize > 0 && RunFailsAtMost(State(requestQueue.items, []), oracle, bound)
    requires limit > |requestQueue.items| + BoundSum(requestQueue.items, bound)
    modifies requestQueue
    ensures requestQueue.items == [] && multiset(Succeeded(trace)) == multiset(old(requestQueue.items))
    ensures |trace| == |old(requestQueue.items)| + Failures(trace)
    ensures |trace| <= |old(requestQueue.items)| + BoundSum(old(requestQueue.items), bound)
    ensures rounds == CeilDiv(|trace|, batchSize)
  {
    trace, rounds := ProcessBatch(requestQueue, batchSize, oracle, limit);
    RoundsFinish(old(requestQueue.items), batchSize, oracle, bound, limit, rounds);
  }

  lemma FinishedInTime(s: State, oracle: Oracle, total: nat, batchSize: nat, limit: nat, rounds: nat)
    requires batchSize > 0 && DrainsAfter(s, oracle, total) && limit > total
    requires rounds < limit ==> Flat(s, oracle, rounds * batchSize).queue == []
    ensures Flat(s, oracle, rounds * batchSize).queue == []
  {
    if rounds >= limit {
      EnoughRounds(total, rounds, batchSize);
      DrainedFrom(s, oracle, total, rounds * batchSize);
    }
  }

  lemma EnoughRounds(total: nat, rounds: nat, batchSize: nat)
    requires total <= rounds && batchSize > 0
    ensures total <= rounds * batchSize
  {
    assert rounds * batchSize == rounds + rounds * (batchSize - 1);
  }
}
