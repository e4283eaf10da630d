/** The thread pool of src/ThreadPool.h as interleaved atomic steps: a step is a
    critical section, a notification, or the end of a task. */
module ThreadPool {
  import opened Basics

  /** What a worker finds under the lock, at lines 20-23. */
  datatype Found = Wait | Leave | Take(ticket: nat)

  function Look(tasks: seq<nat>, stop: bool): Found {
    if tasks != [] then Take(tasks[0]) else if stop then Leave else Wait
  }

  /** The fields the lock protects; a task is known by its ticket, the number of tasks
      enqueued before it. */
  class Queue {
    var tasks: seq<nat>
    var stop: bool

    constructor ()
      ensures tasks == [] && !stop
    {
      tasks, stop := [], false;
    }

    /** One evaluation of the wait predicate, and what follows it under the lock. */
    method Test() returns (found: Found)
      modifies this`tasks
      ensures found == if old(tasks) != [] then Take(old(tasks)[0]) else if stop then Leave else Wait
      ensures tasks == if found.Take? then old(tasks)[1..] else old(tasks)
    {
      if !(stop || tasks != []) {
        return Wait;
      }
      if stop && tasks == [] {
        return Leave;
      }
      found := Take(tasks[0]);
      tasks := tasks[1..];
    }
  }

  /** `Ready` is about to lock for the first time since its last task, `Notified` was
      woken and is about to lock again. */
  datatype Worker = Ready | Waiting | Notified | Running(ticket: nat) | Exited

  /** `owing` are the threads between the unlock and the `notify_one` of `enqueue`, by
      number; numbers that are not workers are threads outside the pool. */
  datatype State = State(
    tasks: seq<nat>, stop: bool, told: bool, workers: map<nat, Worker>, owing: set<nat>,
    enqueued: nat, taken: seq<nat>, ran: seq<nat>)

  datatype Action =
    | Enqueue(thread: nat)
    | NotifyNone(thread: nat)             // nobody waits
    | NotifyOne(thread: nat, worker: nat)
    | Wake(worker: nat)                   // a spurious wakeup
    | Test(worker: nat)
    | Finish(worker: nat)
    | SetStop
    | NotifyAll

  predicate Is(s: State, w: nat, k: Worker) {
    w in s.workers && s.workers[w] == k
  }

  predicate Runs(s: State, w: nat) {
    w in s.workers && s.workers[w].Running?
  }

  predicate Enabled(s: State, a: Action) {
    match a
    case Enqueue(t) => t !in s.owing && if t in s.workers then Runs(s, t) else !s.stop
    case NotifyNone(t) => t in s.owing && forall w | w in s.workers :: s.workers[w] != Waiting
    case NotifyOne(t, w) => t in s.owing && Is(s, w, Waiting)
    case Wake(w) => Is(s, w, Waiting)
    case Test(w) => Is(s, w, Ready) || Is(s, w, Notified)
    case Finish(w) => Runs(s, w) && w !in s.owing
    case SetStop => !s.stop
    case NotifyAll => s.stop && !s.told
  }

  function Woken(workers: map<nat, Worker>): map<nat, Worker> {
    map w | w in workers :: if workers[w] == Waiting then Notified else workers[w]
  }

  function AfterTest(s: State, w: nat): State {
    match Look(s.tasks, s.stop)
    case Wait => s.(workers := s.workers[w := Waiting])
    case Leave => s.(workers := s.workers[w := Exited])
    case Take(t) => s.(workers := s.workers[w := Running(t)], tasks := s.tasks[1..], taken := s.taken + [t])
  }

  function Next(s: State, a: Action): State
    requires Enabled(s, a)
  {
    match a
    case Enqueue(t) => s.(tasks := s.tasks + [s.enqueued], enqueued := s.enqueued + 1, owing := s.owing + {t})
    case NotifyNone(t) => s.(owing := s.owing - {t})
    case NotifyOne(t, w) => s.(owing := s.owing - {t}, workers := s.workers[w := Notified])
    case Wake(w) => s.(workers := s.workers[w := Notified])
    case Test(w) => AfterTest(s, w)
    case Finish(w) => s.(workers := s.workers[w := Ready], ran := s.ran + [s.workers[w].ticket])
    case SetStop => s.(stop := true)
    case NotifyAll => s.(told := true, workers := Woken(s.workers))
  }

  function Crew(n: nat): (r: map<nat, Worker>)
    ensures forall w: nat :: w in r <==> w < n
    ensures forall w | w in r :: r[w] == Ready
  {
    if n == 0 then map[] else Crew(n - 1)[n - 1 := Ready]
  }

  function Start(n: nat): State {
    State([], false, false, Crew(n), {}, 0, [], [])
  }

  /** The state after the first `k` of some threads' steps; a step that is not enabled
      does not happen. */
  function After(n: nat, steps: seq<Action>, k: nat): State
    requires k <= |steps|
  {
    if k == 0 then Start(n)
    else
      var s := After(n, steps, k - 1);
      if Enabled(s, steps[k - 1]) then Next(s, steps[k - 1]) else s
  }

  function Those(workers: map<nat, Worker>, k: Worker): set<nat> {
    set w | w in workers && workers[w] == k
  }

  lemma ThoseUpdated(m: map<nat, Worker>, w: nat, k: Worker, q: Worker)
    ensures Those(m[w := k], q) == if k == q then Those(m, q) + {w} else Those(m, q) - {w}
  {
  }

  /** First in, first out: the tickets taken and those still queued are 0, 1, 2, ... */
  predicate Fifo(s: State) {
    && |s.taken| + |s.tasks| == s.enqueued
    && (forall i | 0 <= i < |s.taken| :: s.taken[i] == i)
    && (forall i | 0 <= i < |s.tasks| :: s.tasks[i] == |s.taken| + i)
  }

  ghost predicate Held(s: State, t: nat) {
    exists w :: Is(s, w, Running(t))
  }

  predicate Fresh(s: State, w: nat)
    requires Runs(s, w)
  {
    s.workers[w].ticket < |s.taken| && s.workers[w].ticket !in s.ran
  }

  /** A ticket that was taken has run once or is running on one worker. */
  ghost predicate Once(s: State) {
    && Distinct(s.ran)
    && (forall t | t in s.ran :: t < |s.taken|)
    && (forall w | Runs(s, w) :: Fresh(s, w))
    && (forall v, w | Runs(s, v) && Runs(s, w) && s.workers[v].ticket == s.workers[w].ticket :: v == w)
    && (forall t: nat | t < |s.taken| && t !in s.ran :: Held(s, t))
  }

  /** Whoever waits is owed a wakeup for every queued task. */
  predicate NoLostWakeup(s: State) {
    Those(s.workers, Waiting) != {} ==> |s.tasks| <= |Those(s.workers, Notified)| + |s.owing|
  }

  /** Workers leave only an empty queue that has been stopped. */
  predicate Staffed(s: State) {
    && (!s.stop ==> Those(s.workers, Exited) == {})
    && (s.tasks != [] ==> exists w | w in s.workers :: s.workers[w] != Exited)
    && (s.told ==> s.stop && Those(s.workers, Waiting) == {})
    && (forall w | w in s.owing && w in s.workers :: Runs(s, w))
  }

  ghost predicate Inv(n: nat, s: State) {
    && (forall w: nat :: w in s.workers <==> w < n)
    && Fifo(s) && Once(s) && NoLostWakeup(s) && Staffed(s)
  }

  lemma OnceSame(s: State, r: State)
    requires Once(s) && r.taken == s.taken && r.ran == s.ran
    requires forall w {:trigger Runs(s, w)} {:trigger Runs(r, w)} ::
               Runs(s, w) == Runs(r, w) && (Runs(s, w) ==> r.workers[w] == s.workers[w])
    ensures Once(r)
  {
    forall t: nat | t < |r.taken| && t !in r.ran ensures Held(r, t) {
      assert Held(s, t);
      var w :| Is(s, w, Running(t));
      assert Runs(s, w) && Is(r, w, Running(t));
    }
    forall w | Runs(r, w) ensures Fresh(r, w) {
      assert Fresh(s, w);
    }
  }

  lemma OnceTake(s: State, w: nat)
    requires Fifo(s) && Once(s) && w in s.workers && !Runs(s, w) && s.tasks != []
    ensures Once(AfterTest(s, w))
  {
    var r := AfterTest(s, w);
    var next := s.tasks[0];
    assert next == |s.taken|;
    forall v | Runs(r, v) ensures Fresh(r, v) {
      assert v == w || (Runs(s, v) && Fresh(s, v));
    }
    forall u, v | Runs(r, u) && Runs(r, v) && r.workers[u].ticket == r.workers[v].ticket ensures u == v {
      assert u == w || (Runs(s, u) && Fresh(s, u));
      assert v == w || (Runs(s, v) && Fresh(s, v));
    }
    forall t: nat | t < |r.taken| && t !in r.ran ensures Held(r, t) {
      if t == next {
        assert Is(r, w, Running(t));
      } else {
        assert Held(s, t);
        var v :| Is(s, v, Running(t));
        assert Is(r, v, Running(t));
      }
    }
  }

  lemma OnceFinish(s: State, w: nat)
    requires Once(s) && Enabled(s, Finish(w))
    ensures Once(Next(s, Finish(w)))
  {
    var r := Next(s, Finish(w));
    assert Fresh(s, w);
    forall v | Runs(r, v) ensures Fresh(r, v) {
      assert Runs(s, v) && Fresh(s, v);
    }
    forall t: nat | t < |r.taken| && t !in r.ran ensures Held(r, t) {
      assert Held(s, t);
      var v :| Is(s, v, Running(t));
      assert Is(r, v, Running(t));
    }
  }

  lemma OnceNext(s: State, a: Action)
    requires Fifo(s) && Once(s) && Enabled(s, a)
    ensures Once(Next(s, a))
  {
    hide Once, Fifo;
    if a.Finish? {
      OnceFinish(s, a.worker);
    } else if a.Test? && s.tasks != [] {
      OnceTake(s, a.worker);
    } else {
      OnceSame(s, Next(s, a));
    }
  }

  lemma FifoNext(s: State, a: Action)
    requires Fifo(s) && Enabled(s, a)
    ensures Fifo(Next(s, a))
  {
  }

  lemma Resized(before: set<nat>, after: set<nat>, w: nat)
    requires after == before + {w} || after == before - {w}
    ensures |after| <= |before| + 1 && |before| <= |after| + 1
    ensures w in after && w !in before ==> |after| == |before| + 1
  {
    if w in before {
      assert before == (before - {w}) + {w};
    }
  }

  lemma WakeupSame(s: State, r: State)
    requires NoLostWakeup(s) && Those(r.workers, Waiting) <= Those(s.workers, Waiting)
    requires Those(r.workers, Notified) == Those(s.workers, Notified)
    requires |r.tasks| <= |s.tasks| && r.owing == s.owing
    ensures NoLostWakeup(r)
  {
  }

  lemma WakeupEnqueue(s: State, t: nat)
    requires NoLostWakeup(s) && Enabled(s, Enqueue(t))
    ensures NoLostWakeup(Next(s, Enqueue(t)))
  {
    var r := Next(s, Enqueue(t));
    assert Those(r.workers, Notified) == Those(s.workers, Notified);
    assert Those(r.workers, Waiting) == Those(s.workers, Waiting);
    Resized(s.owing, r.owing, t);
  }

  lemma WakeupOne(s: State, a: Action)
    requires NoLostWakeup(s) && Enabled(s, a) && (a.NotifyOne? || a.Wake?)
    ensures NoLostWakeup(Next(s, a))
  {
    var r := Next(s, a);
    assert a.worker in Those(s.workers, Waiting);
    assert Those(r.workers, Notified) == Those(s.workers, Notified) + {a.worker};
    Resized(Those(s.workers, Notified), Those(r.workers, Notified), a.worker);
    if a.NotifyOne? {
      Resized(s.owing, r.owing, a.thread);
    }
  }

  lemma WakeupTest(s: State, w: nat)
    requires NoLostWakeup(s) && Enabled(s, Test(w))
    ensures NoLostWakeup(Next(s, Test(w)))
  {
    hide Those;
    var k := Next(s, Test(w)).workers[w];
    ThoseUpdated(s.workers, w, k, Notified);
    ThoseUpdated(s.workers, w, k, Waiting);
    Resized(Those(s.workers, Notified), Those(s.workers, Notified) - {w}, w);
  }

  lemma WakeupNext(s: State, a: Action)
    requires NoLostWakeup(s) && Enabled(s, a)
    ensures NoLostWakeup(Next(s, a))
  {
    hide NoLostWakeup;
    var r := Next(s, a);
    match a
    case Enqueue(t) => WakeupEnqueue(s, t);
    case NotifyOne(t, w) => WakeupOne(s, a);
    case Wake(w) => WakeupOne(s, a);
    case Test(w) => WakeupTest(s, w);
    case NotifyNone(t) => NoneWaits(r);
    case NotifyAll => NoneWaits(r);
    case Finish(w) =>
      assert Those(r.workers, Notified) == Those(s.workers, Notified);
      assert Those(r.workers, Waiting) == Those(s.workers, Waiting);
      WakeupSame(s, r);
    case SetStop => WakeupSame(s, r);
  }

  lemma NoneWaits(s: State)
    requires forall w | w in s.workers :: s.workers[w] != Waiting
    ensures NoLostWakeup(s) && Those(s.workers, Waiting) == {}
  {
  }

  lemma StaffedNext(n: nat, s: State, a: Action)
    requires n > 0 && (forall w: nat :: w in s.workers <==> w < n) && Staffed(s) && Enabled(s, a)
    ensures Staffed(Next(s, a))
  {
    var r := Next(s, a);
    forall w | w in r.owing && w in r.workers ensures Runs(r, w) {
    }
    if r.tasks != [] {
      var w := Stays(n, s, a);
    }
  }

  /** Somebody is left to take what is queued after a step. */
  lemma Stays(n: nat, s: State, a: Action) returns (w: nat)
    requires n > 0 && (forall w: nat :: w in s.workers <==> w < n) && Staffed(s) && Enabled(s, a)
    requires Next(s, a).tasks != []
    ensures w in Next(s, a).workers && Next(s, a).workers[w] != Exited
  {
    if a.Enqueue? {
      w := if a.thread in s.workers then a.thread else 0;
      assert w == 0 && !s.stop ==> 0 !in Those(s.workers, Exited);
    } else {
      w :| w in s.workers && s.workers[w] != Exited;
    }
  }

  /** The invariant holds of a new pool and every step keeps it. */
  lemma InvNext(n: nat, s: State, a: Action)
    requires n > 0 && Inv(n, s) && Enabled(s, a)
    ensures Inv(n, Next(s, a))
  {
    hide Fifo, Once, NoLostWakeup, Staffed;
    FifoNext(s, a);
    OnceNext(s, a);
    WakeupNext(s, a);
    StaffedNext(n, s, a);
  }

  lemma {:induction false} InvAfter(n: nat, steps: seq<Action>, k: nat)
    requires n > 0 && k <= |steps|
    ensures Inv(n, After(n, steps, k))
  {
    if k == 0 {
      assert Those(Start(n).workers, Waiting) == {} && Those(Start(n).workers, Exited) == {};
    } else {
      hide Inv;
      InvAfter(n, steps, k - 1);
      if Enabled(After(n, steps, k - 1), steps[k - 1]) {
        InvNext(n, After(n, steps, k - 1), steps[k - 1]);
      }
    }
  }

  /** How many tasks the steps have enqueued. */
  function Enqueued(n: nat, steps: seq<Action>, k: nat): nat
    requires k <= |steps|
  {
    if k == 0 then 0
    else Enqueued(n, steps, k - 1)
         + if steps[k - 1].Enqueue? && Enabled(After(n, steps, k - 1), steps[k - 1]) then 1 else 0
  }

  lemma {:induction false} TicketsCount(n: nat, steps: seq<Action>, k: nat)
    requires k <= |steps|
    ensures After(n, steps, k).enqueued == Enqueued(n, steps, k)
  {
    if k > 0 {
      TicketsCount(n, steps, k - 1);
    }
  }

  /** What a step does to a worker: it goes to sleep only when it finds no task and no stop,
      leaves only when it finds no task and a stop, and otherwise takes the oldest task and
      runs it to its end.  Asleep it stays until it is notified, or wakes by chance. */
  predicate Turns(s: State, a: Action, w: nat, from: Worker, to: Worker) {
    match a
    case Test(v) =>
      && v == w && (from == Ready || from == Notified)
      && (if s.tasks != [] then to == Running(s.tasks[0]) else if s.stop then to == Exited else to == Waiting)
    case Finish(v) => v == w && from.Running? && to == Ready
    case NotifyOne(_, v) => v == w && from == Waiting && to == Notified
    case Wake(v) => v == w && from == Waiting && to == Notified
    case NotifyAll => from == Waiting && to == Notified
    case _ => false
  }

  lemma WorkerNext(s: State, a: Action, w: nat)
    requires Enabled(s, a) && w in s.workers
    ensures w in Next(s, a).workers
    ensures var from, to := s.workers[w], Next(s, a).workers[w];
            if exists k :: Turns(s, a, w, from, k) then Turns(s, a, w, from, to) else to == from
  {
    var from, to := s.workers[w], Next(s, a).workers[w];
    if from != to {
      assert Turns(s, a, w, from, to);
    }
    if k :| Turns(s, a, w, from, k) {
      assert k == to;
    }
  }

  /** Who may enqueue: a running task at any time, others until the destructor has begun; each
      after it has given the notification it owed. */
  lemma MayEnqueue(s: State, t: nat)
    ensures Enabled(s, Enqueue(t)) <==> t !in s.owing && (if t in s.workers then s.workers[t].Running? else !s.stop)
    ensures Enabled(s, Enqueue(t)) ==> Next(s, Enqueue(t)).tasks == s.tasks + [s.enqueued]
  {
  }

  predicate AllExited(s: State) {
    forall w | w in s.workers :: s.workers[w] == Exited
  }

  /** When every join has returned, whatever the interleaving, every task has run
      exactly once, they were started in the order they were enqueued, and none is left. */
  lemma EachRanOnce(n: nat, steps: seq<Action>)
    requires n > 0 && AllExited(After(n, steps, |steps|))
    ensures var s := After(n, steps, |steps|);
            && s.tasks == [] && |s.taken| == Enqueued(n, steps, |steps|)
            && (forall t: nat :: t in s.ran <==> t < Enqueued(n, steps, |steps|))
            && Distinct(s.ran)
            && (forall i | 0 <= i < |s.taken| :: s.taken[i] == i)
  {
    var s := After(n, steps, |steps|);
    InvAfter(n, steps, |steps|);
    TicketsCount(n, steps, |steps|);
    forall t: nat ensures !Held(s, t) {
      NoneHeld(s, t);
    }
  }

  lemma NoneHeld(s: State, t: nat)
    requires AllExited(s)
    ensures !Held(s, t)
  {
  }

  /** A step by which the pool gets on with its work. */
  predicate Works(a: Action) {
    a.Test? || a.Finish? || a.NotifyOne? || a.NotifyNone?
  }

  lemma SomeNotify(s: State, t: nat)
    requires t in s.owing
    ensures exists a :: Enabled(s, a) && Works(a)
  {
    if w :| w in s.workers && s.workers[w] == Waiting {
      assert Enabled(s, NotifyOne(t, w));
    } else {
      assert Enabled(s, NotifyNone(t));
    }
  }

  /** A worker that is neither asleep nor gone can go on. */
  lemma SomeWork(s: State, w: nat)
    requires w in s.workers && s.workers[w] != Exited && s.workers[w] != Waiting
    ensures exists a :: Enabled(s, a) && Works(a)
  {
    if w in s.owing {
      SomeNotify(s, w);
    } else if s.workers[w].Running? {
      assert Enabled(s, Finish(w));
    } else {
      assert Enabled(s, Test(w));
    }
  }

  /** No lost wakeup: while anything is queued, some worker is awake or some enqueuer is
      still to notify, so the pool cannot be stuck. */
  lemma NeverStuck(n: nat, steps: seq<Action>, k: nat)
    requires n > 0 && k <= |steps|
    ensures var s := After(n, steps, k);
            s.tasks != [] ==> exists a :: Enabled(s, a) && Works(a)
    ensures var s := After(n, steps, k);
            Those(s.workers, Waiting) != {} ==> |s.tasks| <= |Those(s.workers, Notified)| + |s.owing|
  {
    var s := After(n, steps, k);
    InvAfter(n, steps, k);
    if s.tasks != [] {
      var w :| w in s.workers && s.workers[w] != Exited;
      if s.workers[w] != Waiting {
        SomeWork(s, w);
      } else {
        assert w in Those(s.workers, Waiting);
        if v :| v in Those(s.workers, Notified) {
          SomeWork(s, v);
        } else {
          assert Those(s.workers, Notified) == {};
          var t :| t in s.owing;
          SomeNotify(s, t);
        }
      }
    }
  }

  /** The destructor always gets to its `notify_all`, and from there on nobody sleeps. */
  lemma DestructorStarts(n: nat, steps: seq<Action>, k: nat)
    requires n > 0 && k <= |steps|
    ensures var s := After(n, steps, k);
            !s.stop ==>
              && Enabled(s, SetStop) && Enabled(Next(s, SetStop), NotifyAll)
              && var r := Next(Next(s, SetStop), NotifyAll);
                 r.told && r.stop && r.tasks == s.tasks && Those(r.workers, Waiting) == {}
  {
    InvAfter(n, steps, k);
    var s := After(n, steps, k);
    if !s.stop {
      InvNext(n, s, SetStop);
      InvNext(n, Next(s, SetStop), NotifyAll);
    }
  }

  /** What is left to do once the destructor has called `notify_all`. */
  function Load(s: State): nat {
    2 * |s.tasks| + |Active(s.workers)| + |Busy(s.workers)| + |s.owing|
  }

  function Active(workers: map<nat, Worker>): set<nat> {
    set w | w in workers && workers[w] != Exited
  }

  function Busy(workers: map<nat, Worker>): set<nat> {
    set w | w in workers && workers[w].Running?
  }

  lemma LoadUpdated(m: map<nat, Worker>, w: nat, k: Worker)
    ensures Active(m[w := k]) == if k == Exited then Active(m) - {w} else Active(m) + {w}
    ensures Busy(m[w := k]) == if k.Running? then Busy(m) + {w} else Busy(m) - {w}
  {
  }

  lemma Removed(before: set<nat>, w: nat)
    requires w in before
    ensures |before - {w}| == |before| - 1
  {
  }

  lemma LoadTest(s: State, w: nat)
    requires s.stop && Enabled(s, Test(w))
    ensures Load(Next(s, Test(w))) < Load(s)
  {
    assert w in Active(s.workers) && w !in Busy(s.workers);
    hide Active, Busy;
    LoadUpdated(s.workers, w, Next(s, Test(w)).workers[w]);
    if s.tasks == [] {
      assert Busy(s.workers) - {w} == Busy(s.workers);
      Removed(Active(s.workers), w);
    } else {
      assert Active(s.workers) + {w} == Active(s.workers);
    }
  }

  lemma LoadFinish(s: State, w: nat)
    requires Enabled(s, Finish(w))
    ensures Load(Next(s, Finish(w))) < Load(s)
  {
    assert w in Active(s.workers) && w in Busy(s.workers);
    hide Active, Busy;
    LoadUpdated(s.workers, w, Ready);
    assert Active(s.workers) + {w} == Active(s.workers);
    Removed(Busy(s.workers), w);
  }

  lemma LoadEnqueue(s: State, t: nat)
    requires Enabled(s, Enqueue(t))
    ensures Load(Next(s, Enqueue(t))) == Load(s) + 3
  {
  }

  lemma LoadFalls(s: State, a: Action)
    requires s.told && Staffed(s) && Enabled(s, a) && !a.Enqueue?
    ensures Load(Next(s, a)) < Load(s) && Next(s, a).told
  {
    var r := Next(s, a);
    forall w | w in s.workers ensures s.workers[w] != Waiting {
      assert w !in Those(s.workers, Waiting);
    }
    match a
    case Test(w) => LoadTest(s, w);
    case Finish(w) => LoadFinish(s, w);
    case NotifyNone(t) =>
      Removed(s.owing, t);
    case NotifyOne(_, _) =>
    case Wake(_) =>
    case SetStop =>
    case NotifyAll =>
  }

  /** How many of the steps from `k` to `m` enqueue a task. */
  function Enqueues(steps: seq<Action>, k: nat, m: nat): nat
    requires k <= m <= |steps|
    decreases m
  {
    if k == m then 0 else Enqueues(steps, k, m - 1) + if steps[m - 1].Enqueue? then 1 else 0
  }

  /** The destructor returns: from its `notify_all` on, only as many steps can follow as
      there is work left and tasks that tasks still enqueue allow, and they stop only
      when every worker has left. */
  lemma {:induction false} DestructorReturns(n: nat, steps: seq<Action>, k: nat, m: nat)
    requires n > 0 && k <= m <= |steps| && After(n, steps, k).told
    requires forall i | k <= i < m :: Enabled(After(n, steps, i), steps[i])
    ensures var s := After(n, steps, m);
            s.told && m - k + Load(s) <= Load(After(n, steps, k)) + 4 * Enqueues(steps, k, m)
    ensures var s := After(n, steps, m);
            AllExited(s) || exists a :: Enabled(s, a) && Works(a)
    decreases m
  {
    hide Load, Enabled, Next;
    var s := After(n, steps, m);
    InvAfter(n, steps, m);
    if k < m {
      InvAfter(n, steps, m - 1);
      DestructorReturns(n, steps, k, m - 1);
      ToldStep(After(n, steps, m - 1), steps[m - 1]);
    }
    if w :| w in s.workers && s.workers[w] != Exited {
      assert w !in Those(s.workers, Waiting);
      SomeWork(s, w);
    }
  }

  lemma ToldStep(s: State, a: Action)
    requires s.told && Staffed(s) && Enabled(s, a)
    ensures Next(s, a).told
    ensures Load(Next(s, a)) + 1 <= Load(s) + if a.Enqueue? then 4 else 0
  {
    if a.Enqueue? {
      LoadEnqueue(s, a.thread);
    } else {
      LoadFalls(s, a);
    }
  }
}
