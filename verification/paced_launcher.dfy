/**
 The paced launcher of fast_client.cxx: batches of `rate` launches, the start of each at least a second
 after the start of the one before.  Time is real; between any two things the launcher does, the clock
 advances by an arbitrary non-negative amount, and a sleep lasts at least as long as requested.
 */
module PacedModel {
  import opened Arithmetic

  type Duration = d: real | d >= 0.0

  /** tick(k) is the time that passes before the k-th thing the launcher does. */
  type Clock = nat -> Duration

  /** Whether the clean-up after a batch finds a request finished. */
  type Ready = (nat, nat) -> bool

  /**
   What has happened: the clock readings around each batch, the time and the batch of each launch, which
   requests are still held in the vector of futures, and which were erased from it.
   */
  datatype Log = Log(
    now: real,
    events: nat,
    starts: seq<real>,
    ends: seq<real>,
    launches: seq<real>,
    batchOf: seq<nat>,
    futures: seq<nat>,
    erased: seq<nat>)

  function EmptyLog(now: real): Log {
    Log(now, 0, [], [], [], [], [], [])
  }

  /** The time after n more things, counted from the event `from`. */
  function TimeAfter(now: real, from: nat, n: nat, tick: Clock): real {
    if n == 0 then now else TimeAfter(now, from, n - 1, tick) + tick(from + n - 1)
  }

  function Keep(futures: seq<nat>, round: nat, ready: Ready): seq<nat> {
    if futures == [] then []
    else Keep(futures[..|futures| - 1], round, ready)
         + if ready(round, futures[|futures| - 1]) then [] else [futures[|futures| - 1]]
  }

  function Erase(futures: seq<nat>, round: nat, ready: Ready): seq<nat> {
    if futures == [] then []
    else Erase(futures[..|futures| - 1], round, ready)
         + if ready(round, futures[|futures| - 1]) then [futures[|futures| - 1]] else []
  }

  /** A batch under way: the start was read, n requests were launched. */
  function Launching(log: Log, n: nat, tick: Clock): Log {
    var start := log.now + tick(log.events);
    log.(now := TimeAfter(start, log.events + 1, n, tick),
         events := log.events + 1 + n,
         starts := log.starts + [start],
         launches := log.launches + seq(n, i requires i >= 0 => TimeAfter(start, log.events + 1, i + 1, tick)),
         batchOf := log.batchOf + seq(n, _ => |log.starts|),
         futures := log.futures + seq(n, i requires i >= 0 => |log.launches| + i))
  }

  /** The rest of the batch: the second clock reading, the sleep if less than a second has passed, the clean-up. */
  function Finishing(log: Log, tick: Clock, ready: Ready): Log
    requires |log.starts| > 0
  {
    var start := log.starts[|log.starts| - 1];
    var end := log.now + tick(log.events);
    var awake := if end - start < 1.0 then end + (1.0 - (end - start)) + tick(log.events + 1) else end;
    var round := |log.ends|;
    log.(now := awake + tick(log.events + 2),
         events := log.events + 3,
         ends := log.ends + [end],
         futures := Keep(log.futures, round, ready),
         erased := log.erased + Erase(log.futures, round, ready))
  }

  function Min(a: nat, b: nat): nat {
    if a < b then a else b
  }

  function Batch(log: Log, n: nat, tick: Clock, ready: Ready): Log {
    Finishing(Launching(log, n, tick), tick, ready)
  }

  /** The whole loop, with `left` requests to go. */
  function Run(log: Log, left: nat, rate: nat, tick: Clock, ready: Ready): Log
    requires rate > 0
    decreases left
  {
    if left == 0 then log
    else Run(Batch(log, Min(left, rate), tick, ready), left - Min(left, rate), rate, tick, ready)
  }

  // ---------------------------------------------------------------- what every run satisfies

  /** The k-th batch begins at least a second after the one before began, and not before that one ended. */
  ghost predicate BatchPaced(log: Log, k: nat) {
    && k < |log.starts| == |log.ends|
    && log.starts[k] <= log.ends[k]
    && (k > 0 ==> log.ends[k - 1] <= log.starts[k] && log.starts[k - 1] + 1.0 <= log.starts[k])
  }

  /** The m-th launch lies between the clock readings of its batch, and a batch has at most `rate` launches. */
  ghost predicate LaunchPlaced(log: Log, rate: nat, m: nat) {
    && m < |log.launches| == |log.batchOf|
    && log.batchOf[m] < |log.starts| == |log.ends|
    && log.starts[log.batchOf[m]] <= log.launches[m] <= log.ends[log.batchOf[m]]
    && (m > 0 ==> log.launches[m - 1] <= log.launches[m])
    && (m >= rate ==> log.batchOf[m - rate] < log.batchOf[m])
  }

  ghost predicate Paced(log: Log, rate: nat) {
    && |log.ends| == |log.starts|
    && |log.batchOf| == |log.launches|
    && (forall k: nat :: k < |log.starts| ==> BatchPaced(log, k))
    && (forall m: nat :: m < |log.launches| ==> LaunchPlaced(log, rate, m))
    && (log.starts != [] ==>
          log.ends[|log.ends| - 1] <= log.now && log.starts[|log.starts| - 1] + 1.0 <= log.now)
    && (log.launches != [] ==> log.launches[|log.launches| - 1] <= log.now)
  }

  lemma {:induction false} TimeGoesOn(now: real, from: nat, m: nat, n: nat, tick: Clock)
    requires m <= n
    ensures TimeAfter(now, from, m, tick) <= TimeAfter(now, from, n, tick)
  {
    if m < n {
      TimeGoesOn(now, from, m, n - 1, tick);
    }
  }

  /** The i-th launch of the batch that b has and log has not. */
  ghost predicate LaunchInBatch(log: Log, b: Log, start: real, i: nat) {
    var m := |log.launches| + i;
    && m < |b.launches| && |log.ends| < |b.ends|
    && start <= b.launches[m] <= b.ends[|log.ends|]
    && (i > 0 ==> b.launches[m - 1] <= b.launches[m])
  }

  /** What a batch appends. */
  ghost predicate Appends(log: Log, b: Log, n: nat, start: real) {
    && b.starts == log.starts + [start]
    && |b.ends| == |log.ends| + 1 && b.ends[..|log.ends|] == log.ends
    && |b.launches| == |log.launches| + n && b.launches[..|log.launches|] == log.launches
    && b.batchOf == log.batchOf + seq(n, _ => |log.starts|)
    && log.now <= start <= b.ends[|log.ends|] <= b.now && start + 1.0 <= b.now
    && (forall i: nat :: i < n ==> LaunchInBatch(log, b, start, i))
  }

  lemma BatchAppends(log: Log, n: nat, tick: Clock, ready: Ready)
    ensures Appends(log, Batch(log, n, tick, ready), n, log.now + tick(log.events))
  {
    var start := log.now + tick(log.events);
    TimeGoesOn(start, log.events + 1, 0, n, tick);
    var b := Batch(log, n, tick, ready);
    forall i: nat | i < n ensures LaunchInBatch(log, b, start, i) {
      BatchTimes(log, n, tick, ready);
      LaunchesInBatch(log, b, n, start, tick, i);
    }
  }

  /** The launches and the second clock reading of a batch that began at `start`. */
  ghost predicate TimedFrom(log: Log, b: Log, n: nat, start: real, tick: Clock) {
    && |b.launches| == |log.launches| + n && |b.ends| == |log.ends| + 1
    && (forall i: nat :: i < n ==> LaunchedFrom(log, b, i, start, tick))
    && b.ends[|log.ends|] == TimeAfter(start, log.events + 1, n, tick) + tick(log.events + 1 + n)
  }

  predicate LaunchedFrom(log: Log, b: Log, i: nat, start: real, tick: Clock) {
    && |log.launches| + i < |b.launches|
    && b.launches[|log.launches| + i] == TimeAfter(start, log.events + 1, i + 1, tick)
  }

  lemma BatchTimes(log: Log, n: nat, tick: Clock, ready: Ready)
    ensures TimedFrom(log, Batch(log, n, tick, ready), n, log.now + tick(log.events), tick)
  {
  }

  lemma LaunchesInBatch(log: Log, b: Log, n: nat, start: real, tick: Clock, i: nat)
    requires TimedFrom(log, b, n, start, tick) && i < n
    ensures LaunchInBatch(log, b, start, i)
  {
    TimeGoesOn(start, log.events + 1, 0, i + 1, tick);
    TimeGoesOn(start, log.events + 1, i + 1, n, tick);
    assert LaunchedFrom(log, b, i, start, tick);
    if i > 0 {
      TimeGoesOn(start, log.events + 1, i, i + 1, tick);
      assert LaunchedFrom(log, b, i - 1, start, tick);
    }
  }

  lemma StartsKeepPace(log: Log, b: Log, n: nat, rate: nat, start: real, k: nat)
    requires Paced(log, rate) && Appends(log, b, n, start) && k < |b.starts|
    ensures BatchPaced(b, k)
  {
    if k < |log.starts| {
      assert BatchPaced(log, k);
    }
  }

  lemma OldLaunchPlaced(log: Log, b: Log, n: nat, rate: nat, start: real, m: nat)
    requires Paced(log, rate) && Appends(log, b, n, start) && m < |log.launches|
    ensures LaunchPlaced(b, rate, m)
  {
    assert LaunchPlaced(log, rate, m);
    assert b.launches[..|log.launches|][m] == log.launches[m];
  }

  /** A new launch is in the new batch; the one `rate` places before it is in an earlier one. */
  lemma NewLaunchPlaced(log: Log, b: Log, n: nat, rate: nat, start: real, m: nat)
    requires Paced(log, rate) && Appends(log, b, n, start) && n <= rate && |log.launches| <= m < |b.launches|
    ensures LaunchPlaced(b, rate, m)
  {
    assert LaunchInBatch(log, b, start, m - |log.launches|);
    if m >= rate {
      assert LaunchPlaced(log, rate, m - rate);
    }
    if m == |log.launches| && m > 0 {
      assert b.launches[..m][m - 1] == log.launches[m - 1];
    }
  }

  lemma BatchKeepsPace(log: Log, b: Log, n: nat, rate: nat, start: real)
    requires Paced(log, rate) && n <= rate && Appends(log, b, n, start)
    ensures Paced(b, rate)
  {
    forall k: nat | k < |b.starts| ensures BatchPaced(b, k) {
      StartsKeepPace(log, b, n, rate, start, k);
    }
    forall m: nat | m < |b.launches| ensures LaunchPlaced(b, rate, m) {
      if m < |log.launches| {
        OldLaunchPlaced(log, b, n, rate, start, m);
      } else {
        NewLaunchPlaced(log, b, n, rate, start, m);
      }
    }
    if n > 0 {
      assert LaunchInBatch(log, b, start, n - 1);
    } else if log.launches != [] {
      assert b.launches == b.launches[..|log.launches|];
    }
  }

  /** What every batch keeps, every run keeps. */
  lemma {:induction false} RunKeeps(inv: Log -> bool, log: Log, left: nat, rate: nat, tick: Clock, ready: Ready)
    requires rate > 0 && inv(log)
    requires forall l: Log, n: nat :: n <= rate && inv(l) ==> inv(Batch(l, n, tick, ready))
    ensures inv(Run(log, left, rate, tick, ready))
    decreases left
  {
    if left > 0 {
      var n := Min(left, rate);
      assert inv(Batch(log, n, tick, ready));
      RunKeeps(inv, Batch(log, n, tick, ready), left - n, rate, tick, ready);
    }
  }

  lemma RunPaced(log: Log, left: nat, rate: nat, tick: Clock, ready: Ready)
    requires rate > 0 && Paced(log, rate)
    ensures Paced(Run(log, left, rate, tick, ready), rate)
  {
    var inv := (l: Log) => Paced(l, rate);
    forall l: Log, n: nat | n <= rate && inv(l) ensures inv(Batch(l, n, tick, ready)) {
      BatchAppends(l, n, tick, ready);
      BatchKeepsPace(l, Batch(l, n, tick, ready), n, rate, l.now + tick(l.events));
    }
    RunKeeps(inv, log, left, rate, tick, ready);
  }

  lemma {:induction false} RunLaunchesAll(log: Log, left: nat, rate: nat, tick: Clock, ready: Ready)
    requires rate > 0
    ensures |Run(log, left, rate, tick, ready).launches| == |log.launches| + left
    decreases left
  {
    if left > 0 {
      var n := Min(left, rate);
      RunLaunchesAll(Batch(log, n, tick, ready), left - n, rate, tick, ready);
    }
  }

  /** The requests are launched in as few batches as the rate allows. */
  lemma {:induction false} RunBatches(log: Log, left: nat, rate: nat, tick: Clock, ready: Ready)
    requires rate > 0
    ensures |Run(log, left, rate, tick, ready).starts| == |log.starts| + CeilDiv(left, rate)
    decreases left
  {
    if left == 0 {
      CeilDivUnique(0, rate, 0);
    } else {
      var n := Min(left, rate);
      var b := Batch(log, n, tick, ready);
      assert |b.starts| == |log.starts| + 1;
      RunBatches(b, left - n, rate, tick, ready);
      OneBatchFewer(left, rate);
    }
  }

  lemma OneBatchFewer(left: nat, rate: nat)
    requires rate > 0 && left > 0
    ensures CeilDiv(left, rate) == 1 + CeilDiv(left - Min(left, rate), rate)
  {
    if left <= rate {
      CeilDivUnique(0, rate, 0);
      CeilDivUnique(left, rate, 1);
    } else {
      var k := CeilDiv(left - rate, rate);
      CeilDivBounds(left - rate, rate);
      assert (k + 1) * rate == k * rate + rate && (k - 1) * rate == k * rate - rate;
      CeilDivUnique(left, rate, k + 1);
    }
  }

  // ---------------------------------------------------------------- the rate bound

  lemma {:induction false} LaunchesSorted(log: Log, rate: nat, a: nat, b: nat)
    requires Paced(log, rate) && a <= b < |log.launches|
    ensures log.launches[a] <= log.launches[b]
  {
    if a < b {
      LaunchesSorted(log, rate, a, b - 1);
      assert LaunchPlaced(log, rate, b);
    }
  }

  lemma {:induction false} StartsSpread(log: Log, rate: nat, i: nat, j: nat)
    requires Paced(log, rate) && i <= j < |log.starts|
    ensures log.starts[j] >= log.starts[i] + (j - i) as real
  {
    if i < j {
      StartsSpread(log, rate, i, j - 1);
      assert BatchPaced(log, j);
    }
  }

  /** Launches that are `steps * rate` apart are at least `steps` batches apart. */
  lemma {:induction false} BatchesSpread(log: Log, rate: nat, a: nat, b: nat, steps: nat)
    requires Paced(log, rate)
    requires b == a + steps * rate && b < |log.launches|
    ensures log.batchOf[b] >= log.batchOf[a] + steps
    decreases steps
  {
    if steps > 0 {
      Distribute(steps, 1, rate);
      AtLeastOnce(steps, rate);
      assert LaunchPlaced(log, rate, b);
      BatchesSpread(log, rate, a, b - rate, steps - 1);
    }
  }

  /** (L + 1) * rate launches on, at least L seconds have passed. */
  lemma LaunchesSpread(log: Log, rate: nat, seconds: nat, a: nat, b: nat)
    requires Paced(log, rate)
    requires b == a + (seconds + 1) * rate && b < |log.launches|
    ensures log.launches[b] >= log.launches[a] + seconds as real
  {
    BatchesSpread(log, rate, a, b, seconds + 1);
    assert LaunchPlaced(log, rate, a) && LaunchPlaced(log, rate, b);
    FromBatchToBatch(log, rate, seconds, log.batchOf[a], log.batchOf[b]);
  }

  lemma FromBatchToBatch(log: Log, rate: nat, seconds: nat, i: nat, j: nat)
    requires Paced(log, rate) && i + seconds + 1 <= j < |log.starts|
    ensures log.starts[j] >= log.ends[i] + seconds as real
  {
    assert BatchPaced(log, i + 1);
    StartsSpread(log, rate, i + 1, j);
  }

  /** The launches in the half-open window from `from`, `seconds` long. */
  ghost function InWindow(log: Log, from: real, seconds: nat): set<nat> {
    set m: nat | m < |log.launches| && from <= log.launches[m] < from + seconds as real
  }

  function Interval(a: nat, n: nat): (s: set<nat>)
    ensures |s| == n && forall x :: x in s <==> a <= x < a + n
  {
    if n == 0 then {} else Interval(a, n - 1) + {a + n - 1}
  }

  /** Any window of whole seconds holds at most one batch more than it has seconds. */
  lemma WindowBound(log: Log, rate: nat, from: real, seconds: nat)
    requires Paced(log, rate)
    ensures |InWindow(log, from, seconds)| <= (seconds + 1) * rate
  {
    var w := InWindow(log, from, seconds);
    var n := (seconds + 1) * rate;
    if w != {} {
      var a := First(w);
      WindowInInterval(log, rate, from, seconds, a, n);
      SubsetSize(w, Interval(a, n));
    }
  }

  lemma WindowInInterval(log: Log, rate: nat, from: real, seconds: nat, a: nat, n: nat)
    requires Paced(log, rate) && n == (seconds + 1) * rate
    requires a in InWindow(log, from, seconds) && forall m :: m in InWindow(log, from, seconds) ==> a <= m
    ensures InWindow(log, from, seconds) <= Interval(a, n)
  {
    forall m | m in InWindow(log, from, seconds) ensures m < a + n {
      if m >= a + n {
        LaunchesSpread(log, rate, seconds, a, a + n);
        LaunchesSorted(log, rate, a + n, m);
      }
    }
  }

  lemma SubsetSize(s: set<nat>, t: set<nat>)
    requires s <= t
    ensures |s| <= |t|
  {
    assert t == s + (t - s);
  }

  lemma {:induction false} First(s: set<nat>) returns (a: nat)
    requires s != {}
    ensures a in s && forall x :: x in s ==> a <= x
  {
    var e :| e in s;
    if s == {e} {
      a := e;
    } else {
      var b := First(s - {e});
      assert s == (s - {e}) + {e};
      a := Min(b, e);
    }
  }

  /** A window of one second that begins with a batch holds that batch only, but for launches at the very same time. */
  lemma AlignedWindow(log: Log, rate: nat, k: nat, m: nat)
    requires Paced(log, rate)
    requires k < |log.starts| && m in InWindow(log, log.starts[k], 1)
    ensures log.batchOf[m] == k || (log.batchOf[m] < k && log.launches[m] == log.starts[k])
  {
    assert LaunchPlaced(log, rate, m);
    var j := log.batchOf[m];
    if j > k {
      StartsSpread(log, rate, k, j);
    } else if j < k {
      FromBatchToBatch(log, rate, 0, j, k);
    }
  }

  // ---------------------------------------------------------------- theorems about whole runs

  /** The rate bound for every run of the launcher, whatever the clock does. */
  lemma RunWindowBound(now: real, total: nat, rate: nat, tick: Clock, ready: Ready, from: real, seconds: nat)
    requires rate > 0
    ensures |InWindow(Run(EmptyLog(now), total, rate, tick, ready), from, seconds)| <= (seconds + 1) * rate
  {
    RunPaced(EmptyLog(now), total, rate, tick, ready);
    WindowBound(Run(EmptyLog(now), total, rate, tick, ready), rate, from, seconds);
  }

  /** Launching N requests takes at least N / rate seconds, rounded up, from the first clock reading on. */
  lemma RunTakesTime(now: real, total: nat, rate: nat, tick: Clock, ready: Ready)
    requires rate > 0 && total > 0
    ensures var r := Run(EmptyLog(now), total, rate, tick, ready);
            && |r.launches| == total
            && r.starts != [] && r.now - r.starts[0] >= CeilDiv(total, rate) as real
  {
    var r := Run(EmptyLog(now), total, rate, tick, ready);
    RunPaced(EmptyLog(now), total, rate, tick, ready);
    RunLaunchesAll(EmptyLog(now), total, rate, tick, ready);
    RunBatches(EmptyLog(now), total, rate, tick, ready);
    OneBatchFewer(total, rate);
    StartsSpread(r, rate, 0, |r.starts| - 1);
  }

  // ---------------------------------------------------------------- the bound is sharp

  /** The first launch is a second late; everything else is instantaneous. */
  function LateFirstLaunch(k: nat): Duration {
    if k == 1 then 1.0 else 0.0
  }

  lemma {:induction false} Instantaneous(now: real, from: nat, n: nat)
    requires from > 1
    ensures TimeAfter(now, from, n, LateFirstLaunch) == now
  {
    if n > 0 {
      Instantaneous(now, from, n - 1);
    }
  }

  lemma {:induction false} LateStart(n: nat)
    requires n > 0
    ensures TimeAfter(0.0, 1, n, LateFirstLaunch) == 1.0
  {
    if n > 1 {
      LateStart(n - 1);
    } else {
      assert TimeAfter(0.0, 1, 0, LateFirstLaunch) == 0.0;
    }
  }

  lemma FirstBatch(n: nat, ready: Ready)
    requires n > 0
    ensures var b := Batch(EmptyLog(0.0), n, LateFirstLaunch, ready);
            && b.now == 1.0 && b.events > 1 && |b.launches| == n
            && forall m :: 0 <= m < n ==> b.launches[m] == 1.0
  {
    var b := Batch(EmptyLog(0.0), n, LateFirstLaunch, ready);
    LateStart(n);
    forall m | 0 <= m < n ensures b.launches[m] == 1.0 {
      LateStart(m + 1);
    }
  }

  lemma InstantBatch(log: Log, n: nat, ready: Ready)
    requires log.events > 1
    ensures var b := Batch(log, n, LateFirstLaunch, ready);
            && b.now == log.now + 1.0 && b.events > 1 && |b.launches| == |log.launches| + n
            && forall m :: 0 <= m < |b.launches| ==>
                 b.launches[m] == if m < |log.launches| then log.launches[m] else log.now
  {
    var b := Batch(log, n, LateFirstLaunch, ready);
    Instantaneous(log.now, log.events + 1, n);
    forall m | |log.launches| <= m < |b.launches| ensures b.launches[m] == log.now {
      Instantaneous(log.now, log.events + 1, m - |log.launches| + 1);
    }
  }

  ghost predicate LaunchedWithin(log: Log, lo: real, hi: real) {
    forall m :: 0 <= m < |log.launches| ==> lo <= log.launches[m] <= hi
  }

  lemma {:induction false} InstantRun(log: Log, batches: nat, left: nat, rate: nat, ready: Ready, hi: real)
    requires rate > 0 && left == batches * rate && log.events > 1
    requires 1.0 <= log.now && log.now + batches as real - 1.0 <= hi
    requires LaunchedWithin(log, 1.0, hi)
    ensures LaunchedWithin(Run(log, left, rate, LateFirstLaunch, ready), 1.0, hi)
    decreases batches
  {
    if batches > 0 {
      Distribute(batches, 1, rate);
      AtLeastOnce(batches, rate);
      InstantBatch(log, rate, ready);
      var b := Batch(log, rate, LateFirstLaunch, ready);
      InstantRun(b, batches - 1, left - rate, rate, ready, hi);
    }
  }

  lemma BurstRun(rate: nat, seconds: nat, total: nat, ready: Ready)
    requires rate > 0 && seconds > 0 && total == (seconds + 1) * rate
    ensures LaunchedWithin(Run(EmptyLog(0.0), total, rate, LateFirstLaunch, ready), 1.0, seconds as real)
  {
    Distribute(seconds + 1, 1, rate);
    AtLeastOnce(seconds + 1, rate);
    FirstBatch(rate, ready);
    var b := Batch(EmptyLog(0.0), rate, LateFirstLaunch, ready);
    InstantRun(b, seconds, total - rate, rate, ready, seconds as real);
  }

  /** One late launch is enough to put (L + 1) * rate launches into L seconds, twice the rate into a single one. */
  lemma BoundAttained(rate: nat, seconds: nat, ready: Ready)
    requires rate > 0 && seconds > 0
    ensures var r := Run(EmptyLog(0.0), (seconds + 1) * rate, rate, LateFirstLaunch, ready);
            |InWindow(r, 1.0, seconds)| == (seconds + 1) * rate
  {
    var total := (seconds + 1) * rate;
    BurstRun(rate, seconds, total, ready);
    RunLaunchesAll(EmptyLog(0.0), total, rate, LateFirstLaunch, ready);
    WholeWindow(Run(EmptyLog(0.0), total, rate, LateFirstLaunch, ready), total, seconds);
  }

  lemma WholeWindow(log: Log, total: nat, seconds: nat)
    requires |log.launches| == total && LaunchedWithin(log, 1.0, seconds as real)
    ensures |InWindow(log, 1.0, seconds)| == total
  {
    assert InWindow(log, 1.0, seconds) == Interval(0, total);
  }

  /** Launches that are `rate` apart are a second apart. */
  ghost predicate AllApart(launches: seq<real>, rate: nat) {
    forall m: nat :: rate <= m < |launches| ==> launches[m - rate] + 1.0 <= launches[m]
  }

  lemma ApartByRate(log: Log, rate: nat, a: nat, m: nat)
    requires Paced(log, rate) && a + rate <= m < |log.launches|
    requires AllApart(log.launches, rate)
    ensures log.launches[a] + 1.0 <= log.launches[m]
  {
    LaunchesSorted(log, rate, a + rate, m);
    assert log.launches[(a + rate) - rate] + 1.0 <= log.launches[a + rate];
  }

  /** In terms of the log: no second has more than `rate` launches if launches that far apart are a second apart. */
  lemma RateInLog(log: Log, rate: nat)
    requires Paced(log, rate)
    ensures (forall from: real :: |InWindow(log, from, 1)| <= rate) <==> AllApart(log.launches, rate)
  {
    if AllApart(log.launches, rate) {
      forall from: real ensures |InWindow(log, from, 1)| <= rate {
        var w := InWindow(log, from, 1);
        if w != {} {
          var a := First(w);
          forall m | m in w ensures m in Interval(a, rate) {
            if m >= a + rate {
              ApartByRate(log, rate, a, m);
            }
          }
          SubsetSize(w, Interval(a, rate));
        }
      }
    }
    forall m: nat | rate <= m < |log.launches| && log.launches[m - rate] + 1.0 > log.launches[m]
      ensures |InWindow(log, log.launches[m - rate], 1)| > rate
    {
      forall i | m - rate <= i <= m ensures log.launches[m - rate] <= log.launches[i] <= log.launches[m] {
        LaunchesSorted(log, rate, m - rate, i);
        LaunchesSorted(log, rate, i, m);
      }
      SubsetSize(Interval(m - rate, rate + 1), InWindow(log, log.launches[m - rate], 1));
    }
  }

  // ---------------------------------------------------------------- when the nominal rate holds

  /** When launch i of a full batch comes, counted from the batch's start; `first` is the batch's first event. */
  function Offset(first: nat, i: nat, tick: Clock): real {
    TimeAfter(0.0, first + 1, i + 1, tick)
  }

  /** From the start of a full batch to the start of the next: the launches, the sleep, the clean-up, the loop. */
  function Period(first: nat, rate: nat, tick: Clock): real {
    var busy := TimeAfter(0.0, first + 1, rate + 1, tick);
    (if busy < 1.0 then 1.0 + tick(first + rate + 2) else busy) + tick(first + rate + 3) + tick(first + rate + 4)
  }

  function FirstEvent(k: nat, rate: nat): nat {
    k * (rate + 4)
  }

  function StartOf(now: real, k: nat, rate: nat, tick: Clock): real {
    if k == 0 then now + tick(0)
    else StartOf(now, k - 1, rate, tick) + Period(FirstEvent(k - 1, rate), rate, tick)
  }

  /** The i-th launches of batches k and k + 1 are a second apart. */
  predicate SecondApart(k: nat, i: nat, rate: nat, tick: Clock) {
    Period(FirstEvent(k, rate), rate, tick) + Offset(FirstEvent(k + 1, rate), i, tick)
    >= 1.0 + Offset(FirstEvent(k, rate), i, tick)
  }

  function LaunchTime(now: real, m: nat, rate: nat, tick: Clock): real
    requires rate > 0
  {
    StartOf(now, m / rate, rate, tick) + Offset(FirstEvent(m / rate, rate), m % rate, tick)
  }

  lemma {:induction false} TimeShift(now: real, from: nat, n: nat, tick: Clock)
    ensures TimeAfter(now, from, n, tick) == now + TimeAfter(0.0, from, n, tick)
  {
    if n > 0 {
      TimeShift(now, from, n - 1, tick);
    }
  }

  /** So many full batches are behind, and the launches came when they should. */
  ghost predicate InStep(log: Log, now: real, k: nat, rate: nat, tick: Clock)
    requires rate > 0
  {
    && log.events == FirstEvent(k, rate)
    && |log.launches| == k * rate
    && log.now + tick(log.events) == StartOf(now, k, rate, tick)
    && LaunchedOnTime(log, now, rate, tick)
  }

  ghost predicate LaunchedOnTime(log: Log, now: real, rate: nat, tick: Clock)
    requires rate > 0
  {
    forall m: nat :: m < |log.launches| ==> log.launches[m] == LaunchTime(now, m, rate, tick)
  }

  lemma Division(m: nat, k: nat, i: nat, rate: nat)
    requires m == k * rate + i && i < rate
    ensures m / rate == k && m % rate == i
  {
    QuotientUnique(m, rate, k);
  }

  lemma NewLaunch(log: Log, n: nat, tick: Clock, ready: Ready, i: nat)
    requires i < n
    ensures var b := Batch(log, n, tick, ready);
            && |b.launches| == |log.launches| + n
            && b.launches[|log.launches| + i] == log.now + tick(log.events) + Offset(log.events, i, tick)
  {
    TimeShift(log.now + tick(log.events), log.events + 1, i + 1, tick);
  }

  lemma TimeInBatch(now: real, k: nat, i: nat, m: nat, rate: nat, tick: Clock)
    requires i < rate && m == k * rate + i
    ensures LaunchTime(now, m, rate, tick) == StartOf(now, k, rate, tick) + Offset(FirstEvent(k, rate), i, tick)
  {
    Division(m, k, i, rate);
  }

  lemma BatchOnTime(log: Log, now: real, k: nat, n: nat, rate: nat, tick: Clock, ready: Ready)
    requires rate > 0 && InStep(log, now, k, rate, tick) && n <= rate
    ensures LaunchedOnTime(Batch(log, n, tick, ready), now, rate, tick)
  {
    var b := Batch(log, n, tick, ready);
    var before := |log.launches|;
    BatchAppends(log, n, tick, ready);
    forall m: nat | m < |b.launches| ensures b.launches[m] == LaunchTime(now, m, rate, tick) {
      if m < before {
        assert b.launches[..before][m] == log.launches[m];
      } else {
        NewLaunch(log, n, tick, ready, m - before);
        TimeInBatch(now, k, m - before, m, rate, tick);
      }
    }
  }

  lemma NextStart(log: Log, rate: nat, tick: Clock, ready: Ready)
    ensures var b := Batch(log, rate, tick, ready);
            && b.events == log.events + rate + 4
            && b.now + tick(b.events) == log.now + tick(log.events) + Period(log.events, rate, tick)
  {
    TimeShift(log.now + tick(log.events), log.events + 1, rate, tick);
  }

  lemma BatchInStep(log: Log, now: real, k: nat, rate: nat, tick: Clock, ready: Ready)
    requires rate > 0 && InStep(log, now, k, rate, tick)
    ensures InStep(Batch(log, rate, tick, ready), now, k + 1, rate, tick)
  {
    BatchOnTime(log, now, k, rate, rate, tick, ready);
    BatchAppends(log, rate, tick, ready);
    NextStart(log, rate, tick, ready);
    Distribute(k + 1, 1, rate);
    Distribute(k + 1, 1, rate + 4);
  }

  lemma {:induction false} RunOnTime(log: Log, left: nat, now: real, k: nat, rate: nat, tick: Clock, ready: Ready)
    requires rate > 0 && InStep(log, now, k, rate, tick)
    ensures LaunchedOnTime(Run(log, left, rate, tick, ready), now, rate, tick)
    decreases left
  {
    if left >= rate {
      BatchInStep(log, now, k, rate, tick, ready);
      RunOnTime(Batch(log, rate, tick, ready), left - rate, now, k + 1, rate, tick, ready);
    } else if left > 0 {
      BatchOnTime(log, now, k, left, rate, tick, ready);
    }
  }

  /** The time of every launch, from the clock alone. */
  lemma LaunchTimes(now: real, total: nat, rate: nat, tick: Clock, ready: Ready)
    requires rate > 0
    ensures var r := Run(EmptyLog(now), total, rate, tick, ready);
            |r.launches| == total && forall m: nat :: m < total ==> r.launches[m] == LaunchTime(now, m, rate, tick)
  {
    RunLaunchesAll(EmptyLog(now), total, rate, tick, ready);
    RunOnTime(EmptyLog(now), total, now, 0, rate, tick, ready);
  }

  lemma BatchBefore(k: nat, i: nat, m: nat, rate: nat)
    requires m == (k + 1) * rate + i
    ensures m - rate == k * rate + i
  {
    Distribute(k + 1, 1, rate);
  }

  lemma ApartAtPlace(now: real, k: nat, i: nat, a: nat, m: nat, rate: nat, tick: Clock)
    requires i < rate && a == k * rate + i && m == (k + 1) * rate + i
    ensures LaunchTime(now, a, rate, tick) + 1.0 <= LaunchTime(now, m, rate, tick) <==> SecondApart(k, i, rate, tick)
  {
    TimeInBatch(now, k + 1, i, m, rate, tick);
    TimeInBatch(now, k, i, a, rate, tick);
  }

  lemma ApartOnTime(now: real, k: nat, i: nat, m: nat, rate: nat, tick: Clock)
    requires i < rate && m == (k + 1) * rate + i
    ensures m >= rate
    ensures LaunchTime(now, m - rate, rate, tick) + 1.0 <= LaunchTime(now, m, rate, tick) <==>
            SecondApart(k, i, rate, tick)
  {
    BatchBefore(k, i, m, rate);
    ApartAtPlace(now, k, i, m - rate, m, rate, tick);
  }

  lemma BatchAndPlace(m: nat, rate: nat) returns (k: nat, i: nat)
    requires 0 < rate <= m
    ensures i < rate && m == (k + 1) * rate + i
  {
    k, i := m / rate - 1, m % rate;
  }

  ghost predicate TicksApart(total: nat, rate: nat, tick: Clock) {
    forall k: nat, i: nat :: i < rate && (k + 1) * rate + i < total ==> SecondApart(k, i, rate, tick)
  }

  lemma ApartFromTicks(launches: seq<real>, now: real, rate: nat, tick: Clock)
    requires rate > 0 && TicksApart(|launches|, rate, tick)
    requires forall m: nat :: m < |launches| ==> launches[m] == LaunchTime(now, m, rate, tick)
    ensures AllApart(launches, rate)
  {
    forall m: nat | rate <= m < |launches| ensures launches[m - rate] + 1.0 <= launches[m] {
      var k, i := BatchAndPlace(m, rate);
      ApartOnTime(now, k, i, m, rate, tick);
    }
  }

  lemma TicksFromApart(launches: seq<real>, now: real, rate: nat, tick: Clock)
    requires rate > 0 && AllApart(launches, rate)
    requires forall m: nat :: m < |launches| ==> launches[m] == LaunchTime(now, m, rate, tick)
    ensures TicksApart(|launches|, rate, tick)
  {
    forall k: nat, i: nat | i < rate && (k + 1) * rate + i < |launches| ensures SecondApart(k, i, rate, tick) {
      ApartOnTime(now, k, i, (k + 1) * rate + i, rate, tick);
    }
  }

  /**
   No second has more than `rate` launches exactly when, for each place in the batch, the period of a batch makes up
   for what the launch at that place comes earlier in the next one.
   */
  lemma NominalRate(now: real, total: nat, rate: nat, tick: Clock, ready: Ready)
    requires rate > 0
    ensures (forall from: real :: |InWindow(Run(EmptyLog(now), total, rate, tick, ready), from, 1)| <= rate) <==>
            (forall k: nat, i: nat :: i < rate && (k + 1) * rate + i < total ==> SecondApart(k, i, rate, tick))
  {
    var r := Run(EmptyLog(now), total, rate, tick, ready);
    RunPaced(EmptyLog(now), total, rate, tick, ready);
    LaunchTimes(now, total, rate, tick, ready);
    RateInLog(r, rate);
    if TicksApart(total, rate, tick) {
      ApartFromTicks(r.launches, now, rate, tick);
    } else if AllApart(r.launches, rate) {
      TicksFromApart(r.launches, now, rate, tick);
    }
  }

  /** In particular the nominal rate holds when no launch comes earlier in its batch than the one a batch before. */
  lemma SteadyPace(now: real, total: nat, rate: nat, tick: Clock, ready: Ready)
    requires rate > 0
    requires forall k: nat, i: nat :: i < rate ==>
               Offset(FirstEvent(k, rate), i, tick) <= Offset(FirstEvent(k + 1, rate), i, tick)
    ensures forall from: real :: |InWindow(Run(EmptyLog(now), total, rate, tick, ready), from, 1)| <= rate
  {
    NominalRate(now, total, rate, tick, ready);
  }

  // ---------------------------------------------------------------- the futures

  lemma KeepOrEraseOne(keep: seq<nat>, erase: seq<nat>, futures: seq<nat>, last: nat)
    requires multiset(keep) + multiset(erase) == multiset(futures)
    ensures multiset(keep + [last]) + multiset(erase) == multiset(futures + [last])
    ensures multiset(keep) + multiset(erase + [last]) == multiset(futures + [last])
  {
  }

  lemma {:induction false} KeepOrErase(futures: seq<nat>, round: nat, ready: Ready)
    ensures multiset(Keep(futures, round, ready)) + multiset(Erase(futures, round, ready)) == multiset(futures)
  {
    if futures != [] {
      var init, last := futures[..|futures| - 1], futures[|futures| - 1];
      KeepOrErase(init, round, ready);
      KeepOrEraseOne(Keep(init, round, ready), Erase(init, round, ready), init, last);
      assert futures == init + [last];
    }
  }

  function UpTo(n: nat): seq<nat> {
    seq(n, i requires i >= 0 => i)
  }

  function Held(log: Log): multiset<nat> {
    multiset(log.futures) + multiset(log.erased)
  }

  /** The futures held and erased are the requests launched so far, each once. */
  ghost predicate HoldsAll(log: Log) {
    Held(log) == multiset(UpTo(|log.launches|))
  }

  lemma LaunchingHolds(log: Log, n: nat, tick: Clock)
    requires HoldsAll(log)
    ensures HoldsAll(Launching(log, n, tick))
  {
    var more := seq(n, i requires i >= 0 => |log.launches| + i);
    assert UpTo(|log.launches| + n) == UpTo(|log.launches|) + more;
  }

  lemma FinishingHolds(log: Log, tick: Clock, ready: Ready)
    requires |log.starts| > 0 && HoldsAll(log)
    ensures HoldsAll(Finishing(log, tick, ready))
  {
    KeepOrErase(log.futures, |log.ends|, ready);
  }

  lemma BatchHolds(log: Log, n: nat, tick: Clock, ready: Ready)
    requires HoldsAll(log)
    ensures HoldsAll(Batch(log, n, tick, ready))
  {
    LaunchingHolds(log, n, tick);
    var l := Launching(log, n, tick);
    FinishingHolds(l, tick, ready);
    assert Batch(log, n, tick, ready) == Finishing(l, tick, ready);
  }

  lemma NothingHeld(now: real)
    ensures HoldsAll(EmptyLog(now))
  {
    assert UpTo(0) == [];
  }

  lemma RunHolds(log: Log, left: nat, rate: nat, tick: Clock, ready: Ready)
    requires rate > 0 && HoldsAll(log)
    ensures HoldsAll(Run(log, left, rate, tick, ready))
  {
    forall l: Log, n: nat | n <= rate && HoldsAll(l) ensures HoldsAll(Batch(l, n, tick, ready)) {
      BatchHolds(l, n, tick, ready);
    }
    RunKeeps(HoldsAll, log, left, rate, tick, ready);
  }

  lemma {:induction false} KeptOrErased(futures: seq<nat>, round: nat, ready: Ready, f: nat)
    ensures f in Keep(futures, round, ready) <==> f in futures && !ready(round, f)
    ensures f in Erase(futures, round, ready) <==> f in futures && ready(round, f)
  {
    if futures != [] {
      KeptOrErased(futures[..|futures| - 1], round, ready, f);
      assert futures == futures[..|futures| - 1] + [futures[|futures| - 1]];
    }
  }

  /** The clean-up of a batch keeps the futures it does not find ready, and erases the others. */
  lemma CleanUp(log: Log, tick: Clock, ready: Ready, f: nat)
    requires |log.starts| > 0
    ensures f in Finishing(log, tick, ready).futures <==> f in log.futures && !ready(|log.ends|, f)
    ensures f in Finishing(log, tick, ready).erased <==> f in log.erased || (f in log.futures && ready(|log.ends|, f))
  {
    KeptOrErased(log.futures, |log.ends|, ready, f);
  }

  /** Some clean-up since its launch has found the request finished. */
  ghost predicate FoundReady(log: Log, ready: Ready, m: nat) {
    m < |log.batchOf| && exists k: nat :: log.batchOf[m] <= k < |log.ends| && ready(k, m)
  }

  /** What has become of a request. */
  ghost predicate Sorted(log: Log, ready: Ready, m: nat) {
    && (m in log.futures <==> m < |log.batchOf| && !FoundReady(log, ready, m))
    && (m in log.erased <==> FoundReady(log, ready, m))
  }

  ghost predicate AllSorted(log: Log, ready: Ready) {
    && |log.starts| == |log.ends| && |log.batchOf| == |log.launches|
    && (forall m: nat :: m < |log.batchOf| ==> log.batchOf[m] < |log.ends|)
    && (forall m: nat :: Sorted(log, ready, m))
  }

  lemma FoundReadyNow(log: Log, b: Log, n: nat, ready: Ready, m: nat)
    requires |log.starts| == |log.ends| && |b.ends| == |log.ends| + 1
    requires b.batchOf == log.batchOf + seq(n, _ => |log.starts|)
    requires forall i: nat :: i < |log.batchOf| ==> log.batchOf[i] < |log.ends|
    ensures FoundReady(b, ready, m) <==>
            FoundReady(log, ready, m) || (m < |b.batchOf| && ready(|log.ends|, m))
  {
    if m < |b.batchOf| && ready(|log.ends|, m) {
      assert b.batchOf[m] <= |log.ends| < |b.ends|;
    }
    if FoundReady(log, ready, m) {
      var k: nat :| log.batchOf[m] <= k < |log.ends| && ready(k, m);
      assert b.batchOf[m] <= k < |b.ends| && ready(k, m);
    }
  }

  lemma LaunchedFutures(log: Log, n: nat, tick: Clock, m: nat)
    ensures var l := Launching(log, n, tick);
            && (m in l.futures <==> m in log.futures || |log.launches| <= m < |log.launches| + n)
            && l.erased == log.erased && l.ends == log.ends
  {
    var more := seq(n, i requires i >= 0 => |log.launches| + i);
    assert |log.launches| <= m < |log.launches| + n ==> more[m - |log.launches|] == m;
  }

  lemma BatchSorts(log: Log, b: Log, n: nat, tick: Clock, ready: Ready, m: nat)
    requires AllSorted(log, ready) && b == Batch(log, n, tick, ready)
    ensures Sorted(b, ready, m)
  {
    assert Sorted(log, ready, m);
    FoundReadyNow(log, b, n, ready, m);
    LaunchedFutures(log, n, tick, m);
    CleanUp(Launching(log, n, tick), tick, ready, m);
  }

  lemma BatchSortsAll(log: Log, n: nat, tick: Clock, ready: Ready)
    requires AllSorted(log, ready)
    ensures AllSorted(Batch(log, n, tick, ready), ready)
  {
    var b := Batch(log, n, tick, ready);
    forall m: nat ensures Sorted(b, ready, m) {
      BatchSorts(log, b, n, tick, ready, m);
    }
  }

  /** In a run a request is erased exactly if a clean-up after its launch found it finished. */
  lemma RunSorts(now: real, total: nat, rate: nat, tick: Clock, ready: Ready)
    requires rate > 0
    ensures AllSorted(Run(EmptyLog(now), total, rate, tick, ready), ready)
  {
    var inv := (l: Log) => AllSorted(l, ready);
    forall l: Log, n: nat | n <= rate && inv(l) ensures inv(Batch(l, n, tick, ready)) {
      BatchSortsAll(l, n, tick, ready);
    }
    RunKeeps(inv, EmptyLog(now), total, rate, tick, ready);
  }

  lemma SortedMeans(log: Log, ready: Ready, m: nat)
    requires AllSorted(log, ready)
    ensures m in log.erased <==>
            m < |log.batchOf| && exists k: nat :: log.batchOf[m] <= k < |log.ends| && ready(k, m)
    ensures m in log.futures <==>
            m < |log.batchOf| && forall k: nat :: log.batchOf[m] <= k < |log.ends| ==> !ready(k, m)
  {
    assert Sorted(log, ready, m);
  }

  /**
   Every launched request is either erased, exactly if a clean-up from its batch on found it finished, or still held
   for the final wait, exactly if none did; once.
   */
  lemma EveryRequestAwaited(now: real, total: nat, rate: nat, tick: Clock, ready: Ready)
    requires rate > 0
    ensures var r := Run(EmptyLog(now), total, rate, tick, ready);
            && |r.batchOf| == total
            && multiset(r.futures) + multiset(r.erased) == multiset(UpTo(total))
            && (forall m: nat :: m in r.erased <==>
                  m < total && exists k: nat :: r.batchOf[m] <= k < |r.ends| && ready(k, m))
            && (forall m: nat :: m in r.futures <==>
                  m < total && forall k: nat :: r.batchOf[m] <= k < |r.ends| ==> !ready(k, m))
  {
    NothingHeld(now);
    RunHolds(EmptyLog(now), total, rate, tick, ready);
    RunLaunchesAll(EmptyLog(now), total, rate, tick, ready);
    RunSorts(now, total, rate, tick, ready);
    var r := Run(EmptyLog(now), total, rate, tick, ready);
    forall m: nat
      ensures m in r.erased <==> m < total && exists k: nat :: r.batchOf[m] <= k < |r.ends| && ready(k, m)
      ensures m in r.futures <==> m < total && forall k: nat :: r.batchOf[m] <= k < |r.ends| ==> !ready(k, m)
    {
      SortedMeans(r, ready, m);
    }
  }
}

/** fast_client.cxx itself: `sendRequestsWithThreadPool`. */
module PacedLauncher {
  import opened Arithmetic
  import opened PacedModel

  /** The inner loop: one batch of launches, cut short when all requests are out. */
  method LaunchBatch(before: Log, total: int, rate: nat, tick: Clock) returns (log: Log)
    requires |before.launches| < total
    ensures log == Launching(before, Min(rate, total - |before.launches|), tick)
  {
    var start := before.now + tick(before.events);
    log := before.(now := start, events := before.events + 1, starts := before.starts + [start]);
    NoLaunchYet(before, tick);
    var requestCounter := |before.launches|;
    var i := 0;
    while i < rate
      invariant 0 <= i <= Min(rate, total - |before.launches|)
      invariant requestCounter == |before.launches| + i
      invariant log == Launching(before, i, tick)
    {
      if requestCounter >= total {
        break;
      }
      OneMoreLaunch(before, i, tick);
      var time := log.now + tick(log.events);
      log := log.(now := time, events := log.events + 1, launches := log.launches + [time],
                  batchOf := log.batchOf + [|log.starts| - 1], futures := log.futures + [requestCounter]);
      requestCounter := requestCounter + 1;
      i := i + 1;
    }
  }

  /** The rest of a round: the second clock reading, the sleep, the clean-up of the futures. */
  method FinishBatch(launched: Log, tick: Clock, ready: Ready) returns (log: Log)
    requires |launched.starts| > 0
    ensures log == Finishing(launched, tick, ready)
  {
    var start := launched.starts[|launched.starts| - 1];
    var end := launched.now + tick(launched.events);
    var elapsed := end - start;
    var awake := end;
    if elapsed < 1.0 {
      awake := end + (1.0 - elapsed) + tick(launched.events + 1);
    }
    var round := |launched.ends|;
    log := launched.(now := awake + tick(launched.events + 2), events := launched.events + 3,
                     ends := launched.ends + [end],
                     futures := Keep(launched.futures, round, ready),
                     erased := launched.erased + Erase(launched.futures, round, ready));
  }

  /**
   The launching loop and the final wait.  `awaited` are the requests the function waits for at the end; the
   history of the run, with the vector of futures, is kept in `log`.
   */
  method SendRequests(total: int, rate: nat, now: real, tick: Clock, ready: Ready)
    returns (log: Log, awaited: seq<nat>)
    requires rate > 0
    ensures log == Run(EmptyLog(now), Max0(total), rate, tick, ready)
    ensures awaited == log.futures
  {
    log := EmptyLog(now);
    ghost var end := Run(EmptyLog(now), Max0(total), rate, tick, ready);
    while |log.launches| < total
      invariant LeadsTo(log, end, total, rate, tick, ready)
      decreases total - |log.launches|
    {
      ghost var before := log;
      log := LaunchBatch(log, total, rate, tick);
      log := FinishBatch(log, tick, ready);
      RunOneBatch(before, log, end, total, rate, tick, ready);
    }
    awaited := log.futures;
  }

  /** The loop, going on from here, ends there. */
  ghost predicate LeadsTo(log: Log, end: Log, total: int, rate: nat, tick: Clock, ready: Ready)
    requires rate > 0
  {
    |log.launches| <= Max0(total) && Run(log, Max0(total) - |log.launches|, rate, tick, ready) == end
  }

  lemma RunOneBatch(log: Log, b: Log, end: Log, total: nat, rate: nat, tick: Clock, ready: Ready)
    requires rate > 0 && |log.launches| < total && b == Batch(log, Min(rate, total - |log.launches|), tick, ready)
    requires LeadsTo(log, end, total, rate, tick, ready)
    ensures LeadsTo(b, end, total, rate, tick, ready) && |b.launches| > |log.launches|
  {
  }

  lemma NoLaunchYet(log: Log, tick: Clock)
    ensures var start := log.now + tick(log.events);
            Launching(log, 0, tick) == log.(now := start, events := log.events + 1, starts := log.starts + [start])
  {
    assert log.launches + [] == log.launches && log.batchOf + [] == log.batchOf && log.futures + [] == log.futures;
  }

  lemma OneMoreLaunch(log: Log, i: nat, tick: Clock)
    ensures var l := Launching(log, i, tick);
            var time := l.now + tick(l.events);
            Launching(log, i + 1, tick) ==
            l.(now := time, events := l.events + 1, launches := l.launches + [time],
               batchOf := l.batchOf + [|l.starts| - 1], futures := l.futures + [|log.launches| + i])
  {
  }
}
