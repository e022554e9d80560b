/**
 The condition-variable thread pool of rate.cxx as a transition system.

 One event is one atomic piece of a thread's run: everything a thread does while it holds
 `queue_mutex`, one call on the condition variable, or one piece of a task.  `enqueue_task` is
 two events, because `notify_one` runs after the lock is released; the destructor is `SetStop`,
 then `NotifyAll`, then one `Join` per worker.  A task may itself enqueue further tasks.
 */
module PoolModel {

  /** A task, as the finite tree of the tasks it enqueues while it runs. */
  datatype Task = Task(id: int, spawns: seq<Task>)

  datatype Worker =
    | Ready   // about to take the lock and test the predicate
    | Asleep  // blocked in `wait`
    | Woken   // signalled: has to retake the lock and test the predicate again
    | Running(ticket: nat, pending: seq<Task>)  // executes the ticket-th task, `pending` still to be enqueued
    | Exited

  /** How far the destructor has come. */
  datatype Shutdown = Idle | Stopping | Joining(joined: nat)

  /** `notifies` counts the enqueuers between the unlock and `notify_one`.  The last four fields are history. */
  datatype State = State(
    workers: seq<Worker>,
    tasks: seq<Task>,
    stop: bool,
    notifies: nat,
    shutdown: Shutdown,
    enqueued: seq<Task>,
    popped: seq<Task>,
    poppedBy: seq<nat>,
    completed: seq<nat>)

  datatype Event =
    | Push(task: Task)
    | Spawn(w: nat)
    | NotifyOne(w: nat)
    | NotifyNobody
    | Spurious(w: nat)
    | Check(w: nat)
    | Finish(w: nat)
    | SetStop
    | NotifyAll
    | Join

  function Init(n: nat): State {
    State(seq(n, _ => Ready), [], false, 0, Idle, [], [], [], [])
  }

  predicate NobodyAsleep(ws: seq<Worker>) {
    forall i :: 0 <= i < |ws| ==> !ws[i].Asleep?
  }

  predicate AllExited(ws: seq<Worker>) {
    forall i :: 0 <= i < |ws| ==> ws[i].Exited?
  }

  /** External enqueues need a pool that is not being destroyed; all other guards are those of the code. */
  predicate Enabled(s: State, e: Event) {
    match e
    case Push(_) => s.shutdown.Idle?
    case Spawn(w) => w < |s.workers| && s.workers[w].Running? && s.workers[w].pending != []
    case NotifyOne(w) => s.notifies > 0 && w < |s.workers| && s.workers[w].Asleep?
    case NotifyNobody => s.notifies > 0 && NobodyAsleep(s.workers)
    case Spurious(w) => w < |s.workers| && s.workers[w].Asleep?
    case Check(w) => w < |s.workers| && (s.workers[w].Ready? || s.workers[w].Woken?)
    case Finish(w) => w < |s.workers| && s.workers[w].Running? && s.workers[w].pending == []
    case SetStop => s.shutdown.Idle?
    case NotifyAll => s.shutdown.Stopping?
    case Join => s.shutdown.Joining? && s.shutdown.joined < |s.workers| && s.workers[s.shutdown.joined].Exited?
  }

  function WakeAll(ws: seq<Worker>): seq<Worker> {
    seq(|ws|, i requires 0 <= i < |ws| => if ws[i].Asleep? then Woken else ws[i])
  }

  function Apply(s: State, e: Event): State
    requires Enabled(s, e)
  {
    match e
    case Push(task) =>
      s.(tasks := s.tasks + [task], notifies := s.notifies + 1, enqueued := s.enqueued + [task])
    case Spawn(w) =>
      var task := s.workers[w].pending[0];
      s.(workers := s.workers[w := s.workers[w].(pending := s.workers[w].pending[1..])],
         tasks := s.tasks + [task], notifies := s.notifies + 1, enqueued := s.enqueued + [task])
    case NotifyOne(w) =>
      s.(workers := s.workers[w := Woken], notifies := s.notifies - 1)
    case NotifyNobody =>
      s.(notifies := s.notifies - 1)
    case Spurious(w) =>
      s.(workers := s.workers[w := Woken])
    case Check(w) =>
      if s.tasks == [] && !s.stop then
        s.(workers := s.workers[w := Asleep])
      else if s.stop && s.tasks == [] then
        s.(workers := s.workers[w := Exited])
      else
        s.(workers := s.workers[w := Running(|s.popped|, s.tasks[0].spawns)],
           tasks := s.tasks[1..], popped := s.popped + [s.tasks[0]], poppedBy := s.poppedBy + [w])
    case Finish(w) =>
      s.(workers := s.workers[w := Ready], completed := s.completed + [s.workers[w].ticket])
    case SetStop =>
      s.(stop := true, shutdown := Stopping)
    case NotifyAll =>
      s.(workers := WakeAll(s.workers), shutdown := Joining(0))
    case Join =>
      s.(shutdown := Joining(s.shutdown.joined + 1))
  }

  /** Whether the events can happen in this order from s, and the state they lead to. */
  predicate Legal(s: State, es: seq<Event>)
    decreases es
  {
    es == [] || (Enabled(s, es[0]) && Legal(Apply(s, es[0]), es[1..]))
  }

  function Exec(s: State, es: seq<Event>): State
    requires Legal(s, es)
    decreases es
  {
    if es == [] then s else Exec(Apply(s, es[0]), es[1..])
  }

  // ---------------------------------------------------------------- sums over the workers

  function Total(ws: seq<Worker>, f: Worker -> nat): nat {
    if ws == [] then 0 else f(ws[0]) + Total(ws[1..], f)
  }

  lemma {:induction false} TotalUpdate(ws: seq<Worker>, f: Worker -> nat, i: nat, w: Worker)
    requires i < |ws|
    ensures Total(ws[i := w], f) == Total(ws, f) - f(ws[i]) + f(w)
  {
    if i > 0 {
      assert ws[i := w][1..] == ws[1..][i - 1 := w];
      TotalUpdate(ws[1..], f, i - 1, w);
    } else {
      assert ws[0 := w][1..] == ws[1..];
    }
  }

  lemma {:induction false} TotalBounds(ws: seq<Worker>, f: Worker -> nat, bound: nat)
    requires forall i :: 0 <= i < |ws| ==> f(ws[i]) <= bound
    ensures Total(ws, f) <= bound * |ws|
  {
    if ws != [] {
      TotalBounds(ws[1..], f, bound);
    }
  }

  function WokenUnit(w: Worker): nat { if w.Woken? then 1 else 0 }

  function RunningUnit(w: Worker): nat { if w.Running? then 1 else 0 }

  function WokenCount(ws: seq<Worker>): nat { Total(ws, WokenUnit) }

  function RunningCount(ws: seq<Worker>): nat { Total(ws, RunningUnit) }

  // ---------------------------------------------------------------- what every reachable state satisfies

  /** The dequeue history followed by the queue is the enqueue history. */
  ghost predicate Fifo(s: State) {
    && s.enqueued == s.popped + s.tasks
    && |s.poppedBy| == |s.popped|
  }

  /** A sleeping worker has a wake-up on its way for every queued task nobody else was woken for. */
  ghost predicate NoLostWakeup(s: State) {
    NobodyAsleep(s.workers) || |s.tasks| <= s.notifies + WokenCount(s.workers)
  }

  ghost predicate ShutdownInv(s: State) {
    && (s.stop <==> !s.shutdown.Idle?)
    && (forall i :: 0 <= i < |s.workers| && s.workers[i].Exited? ==> s.stop)
    && (s.shutdown.Joining? ==>
          && NobodyAsleep(s.workers)
          && s.shutdown.joined <= |s.workers|
          && forall i :: 0 <= i < s.shutdown.joined ==> s.workers[i].Exited?)
    && (s.workers != [] && AllExited(s.workers) ==> s.tasks == [])
  }

  ghost predicate RunningAt(s: State, t: nat, w: nat) {
    w < |s.workers| && s.workers[w].Running? && s.workers[w].ticket == t
  }

  /** Every dequeued ticket was completed once or is being executed by the one worker that took it. */
  ghost predicate ExactlyOnce(s: State) {
    && |s.poppedBy| == |s.popped|
    && (forall w :: 0 <= w < |s.workers| && s.workers[w].Running? ==>
          s.workers[w].ticket < |s.popped| && s.poppedBy[s.workers[w].ticket] == w)
    && (forall i :: 0 <= i < |s.completed| ==> s.completed[i] < |s.popped|)
    && (forall i, j :: 0 <= i < j < |s.completed| ==> s.completed[i] != s.completed[j])
    && (forall t: nat :: t < |s.popped| ==> (t in s.completed <==> !RunningAt(s, t, s.poppedBy[t])))
  }

  /** Dequeued but uncompleted tasks are exactly those in execution. */
  ghost predicate RunningInv(s: State) {
    |s.popped| == |s.completed| + RunningCount(s.workers)
  }

  ghost predicate Inv(s: State) {
    Fifo(s) && NoLostWakeup(s) && ShutdownInv(s) && ExactlyOnce(s) && RunningInv(s)
  }

  lemma StepKeepsFifo(s: State, e: Event)
    requires Enabled(s, e) && Fifo(s)
    ensures Fifo(Apply(s, e))
  {
  }

  lemma StepKeepsWakeups(s: State, e: Event)
    requires Enabled(s, e) && NoLostWakeup(s) && ShutdownInv(s)
    ensures NoLostWakeup(Apply(s, e))
  {
    var s' := Apply(s, e);
    if e.Spawn? || e.NotifyOne? || e.Spurious? || e.Check? || e.Finish? {
      TotalUpdate(s.workers, WokenUnit, e.w, s'.workers[e.w]);
      if !NobodyAsleep(s.workers) {
      } else if e.Check? && s.tasks == [] {
      } else {
        assert NobodyAsleep(s'.workers);
      }
    }
  }

  lemma StepKeepsShutdown(s: State, e: Event)
    requires Enabled(s, e) && ShutdownInv(s)
    ensures ShutdownInv(Apply(s, e))
  {
    if e.Push? && s.workers != [] {
      assert !s.workers[0].Exited?;
    } else if e.Spawn? || e.NotifyOne? || e.Spurious? || e.Check? || e.Finish? {
      assert Apply(s, e).workers[e.w].Exited? ==> s.stop && s.tasks == [];
    } else if e.NotifyAll? {
      assert forall i :: 0 <= i < |s.workers| ==> WakeAll(s.workers)[i].Exited? ==> s.workers[i].Exited?;
    }
  }

  /** A ticket is in execution or completed, before and after. */
  ghost predicate TicketKept(s: State, t: nat) {
    |s.poppedBy| == |s.popped| && t < |s.popped| && (t in s.completed <==> !RunningAt(s, t, s.poppedBy[t]))
  }

  lemma StepKeepsTicket(s: State, e: Event, t: nat)
    requires Enabled(s, e) && ExactlyOnce(s) && t < |Apply(s, e).popped|
    ensures TicketKept(Apply(s, e), t)
  {
    if t < |s.popped| {
      assert TicketKept(s, t);
    }
  }

  lemma StepKeepsExactlyOnce(s: State, e: Event)
    requires Enabled(s, e) && ExactlyOnce(s)
    ensures ExactlyOnce(Apply(s, e))
  {
    var s' := Apply(s, e);
    forall t: nat | t < |s'.popped|
      ensures t in s'.completed <==> !RunningAt(s', t, s'.poppedBy[t])
    {
      StepKeepsTicket(s, e, t);
    }
  }

  lemma StepKeepsRunning(s: State, e: Event)
    requires Enabled(s, e) && RunningInv(s)
    ensures RunningInv(Apply(s, e)) && |Apply(s, e).workers| == |s.workers|
  {
    if e.NotifyAll? {
      WakeAllTotal(s.workers, RunningUnit);
    } else if e.Spawn? || e.NotifyOne? || e.Spurious? || e.Check? || e.Finish? {
      TotalUpdate(s.workers, RunningUnit, e.w, Apply(s, e).workers[e.w]);
    }
  }

  lemma {:induction false} WakeAllTotal(ws: seq<Worker>, f: Worker -> nat)
    ensures f(Woken) == f(Asleep) ==> Total(WakeAll(ws), f) == Total(ws, f)
    ensures f(Woken) <= f(Asleep) ==> Total(WakeAll(ws), f) <= Total(ws, f)
  {
    if ws != [] {
      assert WakeAll(ws)[1..] == WakeAll(ws[1..]);
      WakeAllTotal(ws[1..], f);
    }
  }

  lemma StepKeepsInv(s: State, e: Event)
    requires Enabled(s, e) && Inv(s)
    ensures Inv(Apply(s, e)) && |Apply(s, e).workers| == |s.workers|
  {
    StepKeepsFifo(s, e);
    StepKeepsWakeups(s, e);
    StepKeepsShutdown(s, e);
    StepKeepsExactlyOnce(s, e);
    StepKeepsRunning(s, e);
  }

  lemma {:induction false} RunKeepsInv(s: State, es: seq<Event>)
    requires Inv(s) && Legal(s, es)
    ensures Inv(Exec(s, es)) && |Exec(s, es).workers| == |s.workers|
    decreases es
  {
    if es != [] {
      StepKeepsInv(s, es[0]);
      RunKeepsInv(Apply(s, es[0]), es[1..]);
    }
  }

  /** Everything above holds in every state a pool of any size can reach. */
  lemma ReachableInv(n: nat, es: seq<Event>)
    requires Legal(Init(n), es)
    ensures Inv(Exec(Init(n), es)) && |Exec(Init(n), es).workers| == n
  {
    TotalBounds(Init(n).workers, RunningUnit, 0);
    RunKeepsInv(Init(n), es);
  }

  // ---------------------------------------------------------------- where the enqueued tasks come from

  /** The tasks given to `enqueue_task` from outside, in order. */
  function Pushed(es: seq<Event>): seq<Task> {
    if es == [] then [] else (if es[0].Push? then [es[0].task] else []) + Pushed(es[1..])
  }

  lemma StepGiven(s: State, e: Event)
    requires Enabled(s, e) && !e.Spawn?
    ensures Apply(s, e).enqueued == s.enqueued + if e.Push? then [e.task] else []
  {
  }

  predicate NoSpawns(es: seq<Event>) {
    es == [] || (!es[0].Spawn? && NoSpawns(es[1..]))
  }

  lemma JoinGiven(all: seq<Task>, before: seq<Task>, now: seq<Task>, here: seq<Task>, later: seq<Task>)
    requires here == before + now && all == here + later
    ensures all == before + (now + later)
  {
  }

  /** Where no task enqueues another one, the enqueue history is what was given, in order. */
  lemma {:induction false} EnqueuedIsPushed(s: State, es: seq<Event>)
    requires Legal(s, es) && NoSpawns(es)
    ensures Exec(s, es).enqueued == s.enqueued + Pushed(es)
    decreases es
  {
    if es != [] {
      var t := Apply(s, es[0]);
      StepGiven(s, es[0]);
      EnqueuedIsPushed(t, es[1..]);
      JoinGiven(Exec(s, es).enqueued, s.enqueued, if es[0].Push? then [es[0].task] else [], t.enqueued,
                Pushed(es[1..]));
    }
  }

  /** What the task with this ticket enqueues in an event ... */
  function SpawnedNow(s: State, e: Event, ticket: nat): seq<Task>
    requires Enabled(s, e)
  {
    if e.Spawn? && s.workers[e.w].ticket == ticket && |s.enqueued| <= |Apply(s, e).enqueued| then
      Apply(s, e).enqueued[|s.enqueued|..]
    else []
  }

  /** ... and in a run, in order. */
  function SpawnedBy(s: State, es: seq<Event>, ticket: nat): seq<Task>
    requires Legal(s, es)
    decreases es
  {
    if es == [] then [] else SpawnedNow(s, es[0], ticket) + SpawnedBy(Apply(s, es[0]), es[1..], ticket)
  }

  /** What an enqueued task has still to enqueue: everything while it is queued, what is pending while it runs. */
  function StillToSpawn(s: State, ticket: nat): seq<Task> {
    if ticket >= |s.popped| then
      (if ticket < |s.enqueued| then s.enqueued[ticket].spawns else [])
    else if ticket < |s.poppedBy| && s.poppedBy[ticket] < |s.workers| && s.workers[s.poppedBy[ticket]].Running?
            && s.workers[s.poppedBy[ticket]].ticket == ticket then
      s.workers[s.poppedBy[ticket]].pending
    else []
  }

  /** A running task enqueues what is next on its list. */
  lemma SpawnSpawns(s: State, w: nat, ticket: nat)
    requires Enabled(s, Spawn(w)) && Inv(s) && ticket < |s.enqueued|
    ensures SpawnedNow(s, Spawn(w), ticket) + StillToSpawn(Apply(s, Spawn(w)), ticket) == StillToSpawn(s, ticket)
  {
    var t := Apply(s, Spawn(w));
    assert t.enqueued[|s.enqueued|..] == [s.workers[w].pending[0]];
    assert [s.workers[w].pending[0]] + t.workers[w].pending == s.workers[w].pending;
  }

  /** An event enqueues what the ticket has to enqueue next, or nothing of it. */
  lemma StepSpawns(s: State, e: Event, ticket: nat)
    requires Enabled(s, e) && Inv(s) && ticket < |s.enqueued|
    ensures SpawnedNow(s, e, ticket) + StillToSpawn(Apply(s, e), ticket) == StillToSpawn(s, ticket)
  {
    if e.Spawn? {
      SpawnSpawns(s, e.w, ticket);
    } else {
      OthersSpawnNothing(s, e, ticket);
    }
  }

  lemma OthersSpawnNothing(s: State, e: Event, ticket: nat)
    requires Enabled(s, e) && !e.Spawn? && Inv(s) && ticket < |s.enqueued|
    ensures SpawnedNow(s, e, ticket) == [] && StillToSpawn(Apply(s, e), ticket) == StillToSpawn(s, ticket)
  {
  }

  lemma StepEnqueues(s: State, e: Event)
    requires Enabled(s, e)
    ensures s.enqueued <= Apply(s, e).enqueued
  {
  }

  /** Before a task is enqueued it enqueues nothing, and then it has everything to enqueue. */
  lemma StepBeforeTicket(s: State, e: Event, ticket: nat)
    requires Enabled(s, e) && Inv(s) && |s.enqueued| <= ticket
    ensures SpawnedNow(s, e, ticket) == []
    ensures ticket < |Apply(s, e).enqueued| ==>
              StillToSpawn(Apply(s, e), ticket) == Apply(s, e).enqueued[ticket].spawns
  {
    assert ExactlyOnce(s);
  }

  lemma JoinSpawns(now: seq<Task>, later: seq<Task>, atFirst: seq<Task>, then': seq<Task>, atLast: seq<Task>)
    requires now + then' == atFirst && later + atLast == then'
    ensures (now + later) + atLast == atFirst
  {
  }

  /** What a task has to enqueue at the beginning of a run it enqueues in the run or has to enqueue at its end. */
  lemma {:induction false} RunSpawns(s: State, es: seq<Event>, ticket: nat)
    requires Inv(s) && Legal(s, es) && ticket < |Exec(s, es).enqueued|
    ensures s.enqueued <= Exec(s, es).enqueued
    ensures SpawnedBy(s, es, ticket) + StillToSpawn(Exec(s, es), ticket) ==
            if ticket < |s.enqueued| then StillToSpawn(s, ticket) else Exec(s, es).enqueued[ticket].spawns
    decreases es
  {
    if es != [] {
      var e, t, end := es[0], Apply(s, es[0]), Exec(s, es);
      StepKeepsInv(s, e);
      StepEnqueues(s, e);
      RunSpawns(t, es[1..], ticket);
      var later, last := SpawnedBy(t, es[1..], ticket), StillToSpawn(end, ticket);
      if ticket < |s.enqueued| {
        StepSpawns(s, e, ticket);
        JoinSpawns(SpawnedNow(s, e, ticket), later, StillToSpawn(s, ticket), StillToSpawn(t, ticket), last);
      } else {
        StepBeforeTicket(s, e, ticket);
        JoinSpawns([], later, end.enqueued[ticket].spawns, end.enqueued[ticket].spawns, last);
      }
    }
  }

  lemma CompletedOwesNothing(s: State, ticket: nat)
    requires Inv(s) && ticket in s.completed
    ensures StillToSpawn(s, ticket) == []
  {
    assert TicketKept(s, ticket);
  }

  /** A task enqueues its tasks in their order, and a completed one has enqueued them all. */
  lemma TasksSpawnInOrder(n: nat, es: seq<Event>, ticket: nat)
    requires Legal(Init(n), es) && ticket < |Exec(Init(n), es).enqueued|
    ensures var s, spawned := Exec(Init(n), es), SpawnedBy(Init(n), es, ticket);
            && spawned <= s.enqueued[ticket].spawns
            && (ticket in s.completed ==> spawned == s.enqueued[ticket].spawns)
  {
    var s := Exec(Init(n), es);
    ReachableInv(n, es);
    ReachableInv(n, []);
    RunSpawns(Init(n), es, ticket);
    if ticket in s.completed {
      CompletedOwesNothing(s, ticket);
    }
  }

  // ---- all tasks there are

  /** How often a task is among those given, those they spawn, and so on. */
  function Occurs(x: Task, ts: seq<Task>): nat
    decreases ts
  {
    if ts == [] then 0 else (if ts[0] == x then 1 else 0) + Occurs(x, ts[0].spawns) + Occurs(x, ts[1..])
  }

  lemma {:induction false} OccursConcat(x: Task, a: seq<Task>, b: seq<Task>)
    ensures Occurs(x, a + b) == Occurs(x, a) + Occurs(x, b)
    decreases a
  {
    if a == [] {
      assert a + b == b;
    } else {
      assert (a + b)[1..] == a[1..] + b;
      OccursConcat(x, a[1..], b);
    }
  }

  /** How often the queued tasks will enqueue it, by themselves and through others. */
  function QueueOwes(x: Task, tasks: seq<Task>): nat {
    if tasks == [] then 0 else Occurs(x, tasks[0].spawns) + QueueOwes(x, tasks[1..])
  }

  lemma {:induction false} QueueOwesPush(x: Task, tasks: seq<Task>, task: Task)
    ensures QueueOwes(x, tasks + [task]) == QueueOwes(x, tasks) + Occurs(x, task.spawns)
  {
    if tasks != [] {
      assert (tasks + [task])[1..] == tasks[1..] + [task];
      QueueOwesPush(x, tasks[1..], task);
    }
  }

  /** And how often a worker in execution will. */
  function WorkerOwes(x: Task): Worker -> nat {
    (w: Worker) => if w.Running? then Occurs(x, w.pending) else 0
  }

  function TimesIn(x: Task, ts: seq<Task>): nat {
    multiset(ts)[x]
  }

  lemma TimesInPush(x: Task, ts: seq<Task>, task: Task)
    ensures TimesIn(x, ts + [task]) == TimesIn(x, ts) + if task == x then 1 else 0
  {
  }

  /** How often it was enqueued or is still to be. */
  function Wealth(x: Task, s: State): nat {
    TimesIn(x, s.enqueued) + QueueOwes(x, s.tasks) + Total(s.workers, WorkerOwes(x))
  }

  /** A task given from outside brings in its whole tree; nothing else adds or takes away a task. */
  lemma StepWealth(x: Task, s: State, e: Event)
    requires Enabled(s, e)
    ensures Wealth(x, Apply(s, e)) == Wealth(x, s) + if e.Push? then Occurs(x, [e.task]) else 0
  {
    var t := Apply(s, e);
    match e
    case Push(task) =>
      QueueOwesPush(x, s.tasks, task);
      TimesInPush(x, s.enqueued, task);
      assert [task][1..] == [];
    case Spawn(w) =>
      QueueOwesPush(x, s.tasks, s.workers[w].pending[0]);
      TimesInPush(x, s.enqueued, s.workers[w].pending[0]);
      TotalUpdate(s.workers, WorkerOwes(x), w, t.workers[w]);
    case NotifyAll => WakeAllTotal(s.workers, WorkerOwes(x));
    case NotifyOne(w) => TotalUpdate(s.workers, WorkerOwes(x), w, t.workers[w]);
    case Spurious(w) => TotalUpdate(s.workers, WorkerOwes(x), w, t.workers[w]);
    case Check(w) => TotalUpdate(s.workers, WorkerOwes(x), w, t.workers[w]);
    case Finish(w) => TotalUpdate(s.workers, WorkerOwes(x), w, t.workers[w]);
    case _ =>
  }

  lemma {:induction false} RunWealth(x: Task, s: State, es: seq<Event>)
    requires Legal(s, es)
    ensures Wealth(x, Exec(s, es)) == Wealth(x, s) + Occurs(x, Pushed(es))
    decreases es
  {
    if es != [] {
      StepWealth(x, s, es[0]);
      RunWealth(x, Apply(s, es[0]), es[1..]);
      OccursConcat(x, if es[0].Push? then [es[0].task] else [], Pushed(es[1..]));
    }
  }

  /** Enqueued were the tasks given, the tasks they spawn, and so on, each as often as it is there. */
  ghost predicate EnqueuedIsForest(s: State, given: seq<Task>) {
    forall x: Task :: TimesIn(x, s.enqueued) == Occurs(x, given)
  }

  /** When nothing is queued and nothing runs, what was enqueued is what was given, and all that came of it. */
  lemma NothingOwed(n: nat, es: seq<Event>)
    requires Legal(Init(n), es) && Exec(Init(n), es).tasks == []
    requires forall i :: 0 <= i < |Exec(Init(n), es).workers| ==> !Exec(Init(n), es).workers[i].Running?
    ensures EnqueuedIsForest(Exec(Init(n), es), Pushed(es))
  {
    var s := Exec(Init(n), es);
    forall x: Task ensures TimesIn(x, s.enqueued) == Occurs(x, Pushed(es)) {
      RunWealth(x, Init(n), es);
      TotalBounds(Init(n).workers, WorkerOwes(x), 0);
      TotalBounds(s.workers, WorkerOwes(x), 0);
    }
  }

  // ---------------------------------------------------------------- bounded parallelism and completion order

  ghost predicate InOrder(s: State) {
    && |s.workers| == 1
    && (forall i :: 0 <= i < |s.completed| ==> s.completed[i] == i)
    && (if s.workers[0].Running? then s.workers[0].ticket == |s.completed| && |s.popped| == |s.completed| + 1
        else |s.popped| == |s.completed|)
  }

  /** A pool of one worker completes the tasks in the order they were enqueued. */
  lemma {:induction false} OneWorkerKeepsOrder(s: State, es: seq<Event>)
    requires InOrder(s) && Legal(s, es)
    ensures InOrder(Exec(s, es))
    decreases es
  {
    if es != [] {
      assert es[0].Spawn? || es[0].NotifyOne? || es[0].Spurious? || es[0].Check? || es[0].Finish? ==> es[0].w == 0;
      OneWorkerKeepsOrder(Apply(s, es[0]), es[1..]);
    }
  }

  /** The tasks completed so far, in completion order. */
  function CompletedTasks(s: State): seq<Task>
    requires forall i :: 0 <= i < |s.completed| ==> s.completed[i] < |s.enqueued|
  {
    seq(|s.completed|, i requires 0 <= i < |s.completed| => s.enqueued[s.completed[i]])
  }

  lemma OneWorkerCompletesAPrefix(es: seq<Event>)
    requires Legal(Init(1), es)
    ensures var s := Exec(Init(1), es);
            && (forall i :: 0 <= i < |s.completed| ==> s.completed[i] < |s.enqueued|)
            && CompletedTasks(s) <= s.enqueued
  {
    ReachableInv(1, es);
    OneWorkerKeepsOrder(Init(1), es);
  }

  /** Dequeued but uncompleted tasks are exactly those in execution, at most one per worker. */
  lemma NeverMoreThanNumThreadsRunning(n: nat, es: seq<Event>)
    requires Legal(Init(n), es)
    ensures var s := Exec(Init(n), es);
            |s.popped| - |s.completed| == RunningCount(s.workers) <= n
  {
    ReachableInv(n, es);
    TotalBounds(Exec(Init(n), es).workers, RunningUnit, 1);
  }

  // ---------------------------------------------------------------- progress

  /** The steps the pool takes by itself: no new external task, no shutdown, no wake-up out of the blue. */
  predicate PoolStep(e: Event) {
    !e.Push? && !e.SetStop? && !e.Spurious?
  }

  /** With a worker and a queued task the pool can go on, however notifications and workers interleaved so far. */
  lemma QueuedTaskMeansProgress(s: State)
    requires Inv(s) && s.workers != [] && s.tasks != []
    ensures exists e: Event :: (e.Check? || e.Finish? || e.Spawn? || e.NotifyOne?) && Enabled(s, e)
  {
    var i :| 0 <= i < |s.workers| && !s.workers[i].Exited?;
    match s.workers[i] {
      case Ready => assert Enabled(s, Check(i));
      case Woken => assert Enabled(s, Check(i));
      case Running(_, pending) =>
        assert Enabled(s, Finish(i)) || Enabled(s, Spawn(i));
      case Asleep =>
        if k :| 0 <= k < |s.workers| && s.workers[k].Woken? {
          assert Enabled(s, Check(k));
        } else {
          TotalBounds(s.workers, WokenUnit, 0);
          assert Enabled(s, NotifyOne(i));
        }
    }
  }

  ghost predicate Quiescent(s: State) {
    forall e: Event :: PoolStep(e) ==> !Enabled(s, e)
  }

  /** Every enqueued task was dequeued and completed, each exactly once. */
  ghost predicate AllTasksDone(s: State) {
    && s.tasks == []
    && |s.completed| == |s.enqueued|
    && (forall t: nat :: t < |s.enqueued| ==> t in s.completed)
    && (forall i, j :: 0 <= i < j < |s.completed| ==> s.completed[i] != s.completed[j])
  }

  lemma NothingRunningMeansDone(s: State)
    requires Inv(s) && s.tasks == []
    requires forall i :: 0 <= i < |s.workers| ==> !s.workers[i].Running?
    ensures AllTasksDone(s)
  {
    TotalBounds(s.workers, RunningUnit, 0);
    assert s.enqueued == s.popped;
  }

  /** Before shutdown, a pool that cannot go on by itself has executed everything; its workers all sleep. */
  lemma QuiescentBeforeStop(s: State)
    requires Inv(s) && s.workers != [] && !s.stop && Quiescent(s)
    ensures AllTasksDone(s) && forall i :: 0 <= i < |s.workers| ==> s.workers[i].Asleep?
  {
    if s.tasks != [] {
      QueuedTaskMeansProgress(s);
    }
    WorkersAtRest(s);
    NothingRunningMeansDone(s);
  }

  lemma WorkersAtRest(s: State)
    requires Quiescent(s)
    ensures forall i :: 0 <= i < |s.workers| ==> s.workers[i].Asleep? || s.workers[i].Exited?
  {
    forall i | 0 <= i < |s.workers|
      ensures s.workers[i].Asleep? || s.workers[i].Exited?
    {
      assert !Enabled(s, Check(i)) && !Enabled(s, Finish(i)) && !Enabled(s, Spawn(i));
    }
  }

  /** After shutdown, a pool that cannot go on has joined all its workers and left no task behind. */
  lemma QuiescentAfterStop(s: State)
    requires Inv(s) && s.workers != [] && s.stop && Quiescent(s)
    ensures AllTasksDone(s) && AllExited(s.workers)
    ensures s.shutdown == Joining(|s.workers|) && s.notifies == 0
  {
    WorkersAtRest(s);
    assert !Enabled(s, NotifyAll) && !Enabled(s, Join) && !Enabled(s, NotifyNobody);
    NothingRunningMeansDone(s);
  }

  // ---------------------------------------------------------------- termination

  /** A queued task is worth its own dequeue and end, and three for each task it will still enqueue. */
  function TaskWeight(t: Task): nat
    decreases t, 1
  {
    2 + SpawnWeight(t.spawns)
  }

  function SpawnWeight(ts: seq<Task>): nat
    decreases ts, 0
  {
    if ts == [] then 0 else TaskWeight(ts[0]) + 3 + SpawnWeight(ts[1..])
  }

  function QueueWeight(ts: seq<Task>): nat {
    if ts == [] then 0 else TaskWeight(ts[0]) + QueueWeight(ts[1..])
  }

  lemma {:induction false} QueueWeightPush(ts: seq<Task>, t: Task)
    ensures QueueWeight(ts + [t]) == QueueWeight(ts) + TaskWeight(t)
  {
    if ts != [] {
      assert (ts + [t])[1..] == ts[1..] + [t];
      QueueWeightPush(ts[1..], t);
    }
  }

  /** After `stop` a sleeper still has to wake up and leave; before it, sleeping is the end of a worker's work. */
  function WorkerWeight(w: Worker, stopped: bool): nat {
    match w
    case Ready => 1
    case Woken => 1
    case Asleep => if stopped then 2 else 0
    case Running(_, pending) => 2 + SpawnWeight(pending)
    case Exited => 0
  }

  function Weigher(stopped: bool): Worker -> nat {
    w => WorkerWeight(w, stopped)
  }

  function ShutdownWeight(s: State): nat {
    match s.shutdown
    case Idle => 0
    case Stopping => |s.workers| + 1
    case Joining(joined) => if joined <= |s.workers| then |s.workers| - joined else 0
  }

  function Measure(s: State): nat {
    QueueWeight(s.tasks) + Total(s.workers, Weigher(s.stop)) + 2 * s.notifies + ShutdownWeight(s)
  }

  /** Every step the pool takes by itself lowers the measure; after `stop` so does a spurious wake-up. */
  lemma StepLowersMeasure(s: State, e: Event)
    requires Enabled(s, e) && ShutdownInv(s)
    requires PoolStep(e) || (s.stop && e.Spurious?)
    ensures Measure(Apply(s, e)) < Measure(s)
  {
    var s' := Apply(s, e);
    if e.Spawn? {
      QueueWeightPush(s.tasks, s.workers[e.w].pending[0]);
    }
    if e.NotifyAll? {
      WakeAllTotal(s.workers, Weigher(s.stop));
    } else if e.Spawn? || e.NotifyOne? || e.Spurious? || e.Check? || e.Finish? {
      TotalUpdate(s.workers, Weigher(s.stop), e.w, s'.workers[e.w]);
    }
  }

  /** Once `stop` is set nothing but finitely many steps is left, however they interleave. */
  lemma {:induction false} ShutdownTerminates(s: State, es: seq<Event>)
    requires Inv(s) && s.stop && Legal(s, es)
    ensures |es| <= Measure(s) && Exec(s, es).stop
    decreases es
  {
    if es != [] {
      StepLowersMeasure(s, es[0]);
      StepKeepsInv(s, es[0]);
      ShutdownTerminates(Apply(s, es[0]), es[1..]);
    }
  }

  /** From every state with `stop` set there is a way to the end, so the bound above is about real completions. */
  lemma {:induction false} ShutdownCanComplete(s: State) returns (es: seq<Event>)
    requires Inv(s) && s.stop
    ensures Legal(s, es) && Quiescent(Exec(s, es))
    decreases Measure(s)
  {
    if Quiescent(s) {
      es := [];
    } else {
      var e: Event :| PoolStep(e) && Enabled(s, e);
      StepLowersMeasure(s, e);
      StepKeepsInv(s, e);
      var rest := ShutdownCanComplete(Apply(s, e));
      es := [e] + rest;
      assert es[1..] == rest;
    }
  }

  /** What an event from outside may cost the pool: the event itself and the steps it gives rise to. */
  function Charge(e: Event, numThreads: nat): nat {
    match e
    case Push(task) => TaskWeight(task) + 3
    case Spurious(_) => 2
    case SetStop => 3 * numThreads + 2
    case _ => 0
  }

  function Charges(es: seq<Event>, numThreads: nat): nat {
    if es == [] then 0 else Charge(es[0], numThreads) + Charges(es[1..], numThreads)
  }

  lemma {:induction false} StoppingWeight(ws: seq<Worker>)
    ensures Total(ws, Weigher(true)) <= Total(ws, Weigher(false)) + 2 * |ws|
  {
    if ws != [] {
      StoppingWeight(ws[1..]);
    }
  }

  lemma StepIsPaidFor(s: State, e: Event)
    requires Enabled(s, e) && ShutdownInv(s)
    ensures 1 + Measure(Apply(s, e)) <= Measure(s) + Charge(e, |s.workers|)
  {
    match e
    case Push(task) => QueueWeightPush(s.tasks, task);
    case Spurious(w) => TotalUpdate(s.workers, Weigher(s.stop), w, Woken);
    case SetStop => StoppingWeight(s.workers);
    case _ => StepLowersMeasure(s, e);
  }

  /**
   Whatever happens to a pool with workers, its steps are paid for by what it had to do at the beginning, what was
   enqueued from outside, spurious wake-ups and the shutdown; and whenever it rests, everything has been executed.
   */
  lemma {:induction false} PoolComesToRest(s: State, es: seq<Event>)
    requires Inv(s) && s.workers != [] && Legal(s, es)
    ensures |es| + Measure(Exec(s, es)) <= Measure(s) + Charges(es, |s.workers|)
    ensures Quiescent(Exec(s, es)) ==> AllTasksDone(Exec(s, es))
    decreases es
  {
    if es == [] {
      RestMeansDone(s);
    } else {
      StepIsPaidFor(s, es[0]);
      StepKeepsInv(s, es[0]);
      PoolComesToRest(Apply(s, es[0]), es[1..]);
    }
  }

  lemma RestMeansDone(s: State)
    requires Inv(s) && s.workers != []
    ensures Quiescent(s) ==> AllTasksDone(s)
  {
    if Quiescent(s) {
      if s.stop {
        QuiescentAfterStop(s);
      } else {
        QuiescentBeforeStop(s);
      }
    }
  }

  /** Two runs, one after the other. */
  lemma {:induction false} ExecConcat(s: State, a: seq<Event>, b: seq<Event>)
    requires Legal(s, a) && Legal(Exec(s, a), b)
    ensures Legal(s, a + b) && Exec(s, a + b) == Exec(Exec(s, a), b)
    decreases a
  {
    if a == [] {
      assert a + b == b;
    } else {
      assert (a + b)[1..] == a[1..] + b;
      ExecConcat(Apply(s, a[0]), a[1..], b);
    }
  }

  /**
   When the destructor returns, after the last `join`, every worker is gone, and executed were, once each, the tasks
   given to `enqueue_task` from outside, the tasks these enqueued, and so on.
   */
  lemma DestructorReturns(n: nat, es: seq<Event>)
    requires n > 0 && Legal(Init(n), es) && Exec(Init(n), es).shutdown == Joining(n)
    ensures AllTasksDone(Exec(Init(n), es)) && AllExited(Exec(Init(n), es).workers)
    ensures EnqueuedIsForest(Exec(Init(n), es), Pushed(es))
  {
    var s := Exec(Init(n), es);
    ReachableInv(n, es);
    assert AllExited(s.workers);
    NothingRunningMeansDone(s);
    NothingOwed(n, es);
  }

  /**
   The destructor's promise: take any history of a pool with workers in which `stop` has been set.
   Whatever happens from there is at most Measure steps long; and as soon as no step is possible any more,
   every worker has returned and been joined, the queue is empty and every enqueued task was executed once.  These are
   the tasks given to `enqueue_task` from outside, the tasks these enqueued, and so on.
   */
  lemma DestructorDrains(n: nat, before: seq<Event>, after: seq<Event>)
    requires n > 0 && Legal(Init(n), before)
    requires Exec(Init(n), before).stop && Legal(Exec(Init(n), before), after)
    ensures var s := Exec(Init(n), before);
            var t := Exec(s, after);
            && |after| <= Measure(s)
            && (t.shutdown.Joining? ==> NobodyAsleep(t.workers))
            && (Quiescent(t) ==>
                  && AllTasksDone(t) && AllExited(t.workers)
                  && t.shutdown == Joining(n)
                  && EnqueuedIsForest(t, Pushed(before + after)))
  {
    var s := Exec(Init(n), before);
    var t := Exec(s, after);
    ReachableInv(n, before);
    RunKeepsInv(s, after);
    ShutdownTerminates(s, after);
    if Quiescent(t) {
      QuiescentAfterStop(t);
      ExecConcat(Init(n), before, after);
      NothingOwed(n, before + after);
    }
  }
}

/**
 The pool object itself.  Its first three fields are those of rate.cxx; `threads` holds where each
 element of `workers` stands, and the last four fields are the history.  A method is what one thread does without
 letting another in, so each is one event of PoolModel, and all its results hold of this object.
 */
module PoolObject {
  import opened PoolModel

  class ThreadPool {
    var threads: seq<Worker>
    var tasks: seq<Task>
    var stop: bool
    var notifies: nat
    var shutdown: Shutdown
    var enqueued: seq<Task>
    var popped: seq<Task>
    var poppedBy: seq<nat>
    var completed: seq<nat>

    ghost function View(): State
      reads this
    {
      State(threads, tasks, stop, notifies, shutdown, enqueued, popped, poppedBy, completed)
    }

    constructor (numThreads: nat)
      ensures View() == Init(numThreads)
    {
      threads := [];
      tasks, stop, notifies, shutdown := [], false, 0, Idle;
      enqueued, popped, poppedBy, completed := [], [], [], [];
      new;
      for i := 0 to numThreads
        invariant threads == seq(i, _ => Ready)
        invariant tasks == [] && !stop && notifies == 0 && shutdown == Idle
        invariant enqueued == [] && popped == [] && poppedBy == [] && completed == []
      {
        threads := threads + [Ready];
      }
    }

    /** `enqueue_task`, inside the lock. */
    method PushTask(task: Task)
      requires Enabled(View(), Push(task))
      modifies this
      ensures View() == Apply(old(View()), Push(task))
    {
      tasks := tasks + [task];
      notifies := notifies + 1;
      enqueued := enqueued + [task];
    }

    /** A running task calls `enqueue_task`, inside the lock. */
    method PushFromTask(w: nat)
      requires Enabled(View(), Spawn(w))
      modifies this
      ensures View() == Apply(old(View()), Spawn(w))
    {
      var task := threads[w].pending[0];
      threads := threads[w := threads[w].(pending := threads[w].pending[1..])];
      tasks := tasks + [task];
      notifies := notifies + 1;
      enqueued := enqueued + [task];
    }

    /** `enqueue_task`, after the lock: wakes the thread the caller picks among the sleeping ones, if there is one. */
    method SignalOne(pick: nat)
      requires notifies > 0
      requires Enabled(View(), NotifyOne(pick)) || Enabled(View(), NotifyNobody)
      modifies this
      ensures View() == Apply(old(View()), if old(NobodyAsleep(threads)) then NotifyNobody else NotifyOne(pick))
    {
      notifies := notifies - 1;
      if pick < |threads| && threads[pick].Asleep? {
        threads := threads[pick := Woken];
      }
    }

    /** `wait` returns without a notification. */
    method WakeSpuriously(w: nat)
      requires Enabled(View(), Spurious(w))
      modifies this
      ensures View() == Apply(old(View()), Spurious(w))
    {
      threads := threads[w := Woken];
    }

    /** `worker_thread`, from taking the lock to leaving it: in `wait`, with a task, or for good. */
    method FetchTask(w: nat) returns (task: seq<Task>)
      requires Enabled(View(), Check(w))
      modifies this
      ensures View() == Apply(old(View()), Check(w))
      ensures task == old(tasks)[..|old(tasks)| - |tasks|]
    {
      task := [];
      if !(tasks != [] || stop) {
        threads := threads[w := Asleep];
        return;
      }
      if stop && tasks == [] {
        threads := threads[w := Exited];
        return;
      }
      task := [tasks[0]];
      tasks := tasks[1..];
      threads := threads[w := Running(|popped|, task[0].spawns)];
      popped := popped + task;
      poppedBy := poppedBy + [w];
    }

    /** The task of a worker returns and the worker starts over. */
    method TaskReturns(w: nat)
      requires Enabled(View(), Finish(w))
      modifies this
      ensures View() == Apply(old(View()), Finish(w))
    {
      completed := completed + [threads[w].ticket];
      threads := threads[w := Ready];
    }

    /** The destructor, inside the lock. */
    method BeginShutdown()
      requires Enabled(View(), SetStop)
      modifies this
      ensures View() == Apply(old(View()), SetStop)
    {
      stop := true;
      shutdown := Stopping;
    }

    /** The destructor's `notify_all`. */
    method SignalAll()
      requires Enabled(View(), NotifyAll)
      modifies this
      ensures View() == Apply(old(View()), NotifyAll)
    {
      ghost var before := threads;
      for i := 0 to |threads|
        modifies this`threads
        invariant |threads| == |before|
        invariant forall k :: 0 <= k < i ==> threads[k] == if before[k].Asleep? then Woken else before[k]
        invariant forall k :: i <= k < |threads| ==> threads[k] == before[k]
      {
        if threads[i].Asleep? {
          threads := threads[i := Woken];
        }
      }
      assert threads == WakeAll(before);
      shutdown := Joining(0);
    }

    /** One `join` of the destructor's loop returns. */
    method JoinNext()
      requires Enabled(View(), Join)
      modifies this
      ensures View() == Apply(old(View()), Join)
    {
      shutdown := Joining(shutdown.joined + 1);
    }
  }

  /** A pool on which a whole history of events has taken place is in the state the model says, with its invariants. */
  method Replay(n: nat, es: seq<Event>) returns (pool: ThreadPool)
    requires Legal(Init(n), es)
    ensures fresh(pool) && pool.View() == Exec(Init(n), es) && Inv(pool.View())
  {
    pool := new ThreadPool(n);
    for i := 0 to |es|
      invariant fresh(pool) && Legal(pool.View(), es[i..])
      invariant Exec(pool.View(), es[i..]) == Exec(Init(n), es)
    {
      assert es[i..][0] == es[i] && es[i..][1..] == es[i + 1..];
      match es[i] {
        case Push(task) => pool.PushTask(task);
        case Spawn(w) => pool.PushFromTask(w);
        case NotifyOne(w) => pool.SignalOne(w);
        case NotifyNobody => pool.SignalOne(0);
        case Spurious(w) => pool.WakeSpuriously(w);
        case Check(w) => var _ := pool.FetchTask(w);
        case Finish(w) => pool.TaskReturns(w);
        case SetStop => pool.BeginShutdown();
        case NotifyAll => pool.SignalAll();
        case Join => pool.JoinNext();
      }
    }
    ReachableInv(n, es);
  }
}
