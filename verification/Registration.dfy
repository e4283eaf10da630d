/** The register and login requests of src/http_conn.cpp, lines 426-456, by any number
    of workers at once: the lock on the users map and the connection pool together. */
module Registration {
  import opened Basics
  import opened SqlConnPool

  /** Where a request is.  `Checked` has dropped the lock after looking the name up,
      `Connected` holds a connection and wants the lock, `Stored` has dropped it. */
  datatype Pc = Start | Checking | Checked | Granted | Connected | Inserting | Stored | Posting | Done

  /** `left` is how many requests each worker has after the one it is on. */
  datatype System = System(pool: State, lock: Option<nat>, pc: map<nat, Pc>, left: map<nat, nat>)

  datatype Move =
    | Lock(t: nat)
    | UnlockAnswer(t: nat)    // a login, or the name exists: no connection is needed
    | UnlockChecked(t: nat)
    | SemWait(t: nat)
    | Take(t: nat)
    | LockInsert(t: nat)
    | UnlockInsert(t: nat)
    | GiveBack(t: nat)
    | SemPost(t: nat)
    | NextRequest(t: nat)

  predicate At(s: System, t: nat, k: Pc) {
    t in s.pc && s.pc[t] == k
  }

  /** What the move asks of the pool, if anything. */
  function PoolAction(m: Move): Option<Action> {
    match m
    case SemWait(t) => Some(Action.SemWait(t))
    case Take(t) => Some(Action.Take(t))
    case GiveBack(t) => Some(Action.GiveBack(t))
    case SemPost(t) => Some(Action.SemPost(t))
    case _ => None
  }

  function From(m: Move): Pc {
    match m
    case Lock(_) => Start
    case UnlockAnswer(_) => Checking
    case UnlockChecked(_) => Checking
    case SemWait(_) => Checked
    case Take(_) => Pc.Granted
    case LockInsert(_) => Connected
    case UnlockInsert(_) => Inserting
    case GiveBack(_) => Stored
    case SemPost(_) => Pc.Posting
    case NextRequest(_) => Done
  }

  function To(m: Move): Pc {
    match m
    case Lock(_) => Checking
    case UnlockAnswer(_) => Done
    case UnlockChecked(_) => Checked
    case SemWait(_) => Pc.Granted
    case Take(_) => Connected
    case LockInsert(_) => Inserting
    case UnlockInsert(_) => Stored
    case GiveBack(_) => Pc.Posting
    case SemPost(_) => Done
    case NextRequest(_) => Start
  }

  predicate Can(s: System, m: Move) {
    && At(s, m.t, From(m))
    && (m.Lock? || m.LockInsert? ==> s.lock == None)
    && (PoolAction(m).Some? ==> Enabled(s.pool, PoolAction(m).value))
    && (m.NextRequest? ==> m.t in s.left && s.left[m.t] > 0)
  }

  function Do(s: System, m: Move): System
    requires Can(s, m)
  {
    System(
      if PoolAction(m).Some? then Next(s.pool, PoolAction(m).value) else s.pool,
      if m.Lock? || m.LockInsert? then Some(m.t)
      else if m.UnlockAnswer? || m.UnlockChecked? || m.UnlockInsert? then None
      else s.lock,
      s.pc[m.t := To(m)],
      if m.NextRequest? then s.left[m.t := s.left[m.t] - 1] else s.left)
  }

  function Workers(n: nat): (r: map<nat, Pc>)
    ensures forall t: nat :: t in r <==> t < n
    ensures forall t | t in r :: r[t] == Done
  {
    if n == 0 then map[] else Workers(n - 1)[n - 1 := Done]
  }

  /** The system after the first `k` of some workers' moves; `requests[t]` is how many
      requests worker `t` will handle. */
  function Reach(conns: seq<nat>, requests: map<nat, nat>, n: nat, moves: seq<Move>, k: nat): System
    requires k <= |moves|
  {
    if k == 0 then System(State(conns, |conns|, Crew(n)), None, Workers(n), requests)
    else
      var s := Reach(conns, requests, n, moves, k - 1);
      if Can(s, moves[k - 1]) then Do(s, moves[k - 1]) else s
  }

  /** What the pool knows of a worker at `pc`. */
  predicate Matches(pc: Pc, thread: Thread) {
    match pc
    case Granted => thread == Thread.Granted
    case Connected => thread.Loan?
    case Inserting => thread.Loan?
    case Stored => thread.Loan?
    case Posting => thread == Thread.Posting
    case _ => thread == Idle
  }

  predicate Locks(pc: Pc) {
    pc == Checking || pc == Inserting
  }

  predicate Known(s: System, t: nat) {
    && t in s.pc && t in s.left && t in s.pool.threads
    && Matches(s.pc[t], s.pool.threads[t])
    && (Locks(s.pc[t]) <==> s.lock == Some(t))
  }

  ghost predicate Sound(n: nat, s: System) {
    && (forall t: nat | t < n :: Known(s, t))
    && (forall t | t in s.pc :: t < n)
    && (forall t | t in s.pool.threads :: t < n)
    && (s.lock.Some? ==> s.lock.value < n)
  }

  ghost predicate Good(conns: seq<nat>, n: nat, s: System) {
    Inv(conns, s.pool) && Sound(n, s)
  }

  /** The pool step of a move changes one thread, as the move says. */
  lemma PoolStep(s: State, m: Move, t: nat)
    requires PoolAction(m).Some? && Enabled(s, PoolAction(m).value) && NoNull(s) && t in s.threads
    ensures var r := Next(s, PoolAction(m).value);
            && t in r.threads && (t != m.t ==> r.threads[t] == s.threads[t])
            && (t == m.t ==> Matches(To(m), r.threads[t]))
  {
  }

  lemma KnownNext(n: nat, s: System, m: Move, t: nat)
    requires Known(s, m.t) && Known(s, t) && NoNull(s.pool) && Can(s, m)
    ensures Known(Do(s, m), t)
  {
    hide Next, Enabled;
    if PoolAction(m).Some? {
      PoolStep(s.pool, m, t);
    }
  }

  lemma GoodNext(conns: seq<nat>, n: nat, s: System, m: Move)
    requires Good(conns, n, s) && Can(s, m)
    ensures Good(conns, n, Do(s, m))
  {
    hide Known, Counted, Partitioned;
    if PoolAction(m).Some? {
      InvNext(conns, s.pool, PoolAction(m).value);
    }
    assert Known(s, m.t);
    forall t: nat | t < n ensures Known(Do(s, m), t) {
      KnownNext(n, s, m, t);
    }
  }

  lemma {:induction false} GoodReach(conns: seq<nat>, requests: map<nat, nat>, n: nat, moves: seq<Move>, k: nat)
    requires Distinct(conns) && k <= |moves| && forall t: nat | t < n :: t in requests
    ensures Good(conns, n, Reach(conns, requests, n, moves, k))
  {
    if k == 0 {
      InvStart(conns, n);
      var s := Reach(conns, requests, n, moves, 0);
      forall t: nat | t < n ensures Known(s, t) {
      }
    } else {
      hide Good;
      GoodReach(conns, requests, n, moves, k - 1);
      var s := Reach(conns, requests, n, moves, k - 1);
      if Can(s, moves[k - 1]) {
        GoodNext(conns, n, s, moves[k - 1]);
      }
    }
  }

  // The course of a request.

  /** A registration of a new name: look it up under the lock, then insert it under the lock
      with a connection in hand. */
  function Registering(t: nat): seq<Move> {
    [NextRequest(t), Lock(t), UnlockChecked(t), Move.SemWait(t), Move.Take(t), LockInsert(t), UnlockInsert(t),
     Move.GiveBack(t), Move.SemPost(t)]
  }

  /** A login, or a registration of a name that is taken. */
  function Answering(t: nat): seq<Move> {
    [NextRequest(t), Lock(t), UnlockAnswer(t)]
  }

  /** The moves of worker `t` in its current request. */
  function Since(conns: seq<nat>, requests: map<nat, nat>, n: nat, moves: seq<Move>, k: nat, t: nat): seq<Move>
    requires k <= |moves|
  {
    if k == 0 then []
    else
      var before, m := Since(conns, requests, n, moves, k - 1, t), moves[k - 1];
      if m.t != t || !Can(Reach(conns, requests, n, moves, k - 1), m) then before
      else if m.NextRequest? then [m]
      else before + [m]
  }

  /** How far a worker at `pc` is. */
  predicate OnCourse(pc: Pc, since: seq<Move>, t: nat) {
    match pc
    case Start => since == Registering(t)[..1]
    case Checking => since == Registering(t)[..2]
    case Checked => since == Registering(t)[..3]
    case Granted => since == Registering(t)[..4]
    case Connected => since == Registering(t)[..5]
    case Inserting => since == Registering(t)[..6]
    case Stored => since == Registering(t)[..7]
    case Posting => since == Registering(t)[..8]
    case Done => since == [] || since == Answering(t) || since == Registering(t)
  }

  lemma CourseNext(pc: Pc, since: seq<Move>, m: Move)
    requires OnCourse(pc, since, m.t) && pc == From(m)
    ensures OnCourse(To(m), if m.NextRequest? then [m] else since + [m], m.t)
  {
  }

  /** Every request takes one of the two courses, step by step, whatever the others do; it is
      done exactly when it has taken all of it.  No two workers are inside the lock. */
  lemma {:induction false} TakesCourse(conns: seq<nat>, requests: map<nat, nat>, n: nat, moves: seq<Move>, k: nat,
                                       t: nat)
    requires k <= |moves| && t < n
    ensures var s, since := Reach(conns, requests, n, moves, k), Since(conns, requests, n, moves, k, t);
            && t in s.pc && OnCourse(s.pc[t], since, t)
            && (since <= Registering(t) || since == Answering(t))
            && (s.pc[t] == Done <==> since == [] || since == Answering(t) || since == Registering(t))
  {
    if k > 0 {
      TakesCourse(conns, requests, n, moves, k - 1, t);
      var s, m := Reach(conns, requests, n, moves, k - 1), moves[k - 1];
      hide Next, Enabled, OnCourse;
      if Can(s, m) && m.t == t {
        CourseNext(s.pc[t], Since(conns, requests, n, moves, k - 1, t), m);
      }
    }
    CourseFacts(Reach(conns, requests, n, moves, k).pc[t], Since(conns, requests, n, moves, k, t), t);
  }

  lemma CourseFacts(pc: Pc, since: seq<Move>, t: nat)
    requires OnCourse(pc, since, t)
    ensures since <= Registering(t) || since == Answering(t)
    ensures pc == Done <==> since == [] || since == Answering(t) || since == Registering(t)
  {
    assert Registering(t)[..3][2] == UnlockChecked(t) && Answering(t)[2] == UnlockAnswer(t);
    assert |Registering(t)| == 9 && |Answering(t)| == 3;
  }

  lemma OneInside(conns: seq<nat>, requests: map<nat, nat>, n: nat, moves: seq<Move>, k: nat, t: nat, u: nat)
    requires Distinct(conns) && k <= |moves| && (forall t: nat | t < n :: t in requests) && t < n && u < n
    ensures var s := Reach(conns, requests, n, moves, k);
            && t in s.pc && u in s.pc
            && (s.pc[t] in {Checking, Inserting} && s.pc[u] in {Checking, Inserting} ==> t == u)
  {
    hide Inv;
    GoodReach(conns, requests, n, moves, k);
    var s := Reach(conns, requests, n, moves, k);
    assert Known(s, t) && Known(s, u);
  }

  predicate Unfinished(s: System, t: nat) {
    t in s.pc && t in s.left && (s.pc[t] != Done || s.left[t] > 0)
  }

  /** A worker that is not before the semaphore or a taken lock can move. */
  lemma Moves(n: nat, s: System, t: nat)
    requires Sound(n, s) && t < n && Unfinished(s, t)
    requires s.pc[t] == Start || s.pc[t] == Connected ==> s.lock == None
    requires s.pc[t] == Checked ==> s.pool.sem > 0
    ensures exists m :: Can(s, m)
  {
    assert Known(s, t);
    var m := match s.pc[t]
      case Start => Lock(t)
      case Checking => UnlockChecked(t)
      case Checked => Move.SemWait(t)
      case Granted => Move.Take(t)
      case Connected => LockInsert(t)
      case Inserting => UnlockInsert(t)
      case Stored => Move.GiveBack(t)
      case Posting => Move.SemPost(t)
      case Done => NextRequest(t);
    assert Can(s, m);
  }

  /** Somebody holds a connection or is on the way to or from one. */
  lemma PoolBusy(conns: seq<nat>, s: State)
    requires Inv(conns, s) && conns != [] && s.sem == 0
    ensures exists u :: u in s.threads && s.threads[u] != Idle
  {
    if forall u | u in s.threads :: s.threads[u] == Idle {
      AllBack(conns, s);
    }
  }

  /** No deadlock: with at least one connection, whatever the number of workers and the
      interleaving so far, while any request is unfinished some worker can move. */
  lemma NoDeadlock(conns: seq<nat>, requests: map<nat, nat>, n: nat, moves: seq<Move>, k: nat, t: nat)
    requires Distinct(conns) && conns != [] && k <= |moves| && forall t: nat | t < n :: t in requests
    requires Unfinished(Reach(conns, requests, n, moves, k), t)
    ensures exists m :: Can(Reach(conns, requests, n, moves, k), m)
  {
    hide Inv;
    GoodReach(conns, requests, n, moves, k);
    var s := Reach(conns, requests, n, moves, k);
    if s.lock.Some? {
      assert Known(s, s.lock.value);
      Moves(n, s, s.lock.value);
    } else if s.pc[t] != Checked || s.pool.sem > 0 {
      Moves(n, s, t);
    } else {
      PoolBusy(conns, s.pool);
      var u :| u in s.pool.threads && s.pool.threads[u] != Idle;
      assert Known(s, u);
      Moves(n, s, u);
    }
  }

  lemma OneMove(conns: seq<nat>, requests: map<nat, nat>, n: nat, moves: seq<Move>, k: nat)
    requires k < |moves| && Can(Reach(conns, requests, n, moves, k), moves[k])
    ensures Reach(conns, requests, n, moves, k + 1) == Do(Reach(conns, requests, n, moves, k), moves[k])
  {
  }

  predicate Alone(s: System, k: Pc, lock: Option<nat>) {
    At(s, 0, k) && s.lock == lock && s.pool.sem == 0 && 0 in s.left && forall t | t in s.pc :: t == 0
  }

  lemma NobodyMoves(s: System)
    requires Alone(s, Checked, None)
    ensures Unfinished(s, 0) && forall m :: !Can(s, m)
  {
  }

  lemma AloneStarts(s: System)
    requires Alone(s, Done, None) && s.left[0] > 0
    ensures Can(s, NextRequest(0)) && Alone(Do(s, NextRequest(0)), Start, None)
  {
  }

  lemma AloneLocks(s: System)
    requires Alone(s, Start, None)
    ensures Can(s, Lock(0)) && Alone(Do(s, Lock(0)), Checking, Some(0))
  {
  }

  lemma AloneUnlocks(s: System)
    requires Alone(s, Checking, Some(0))
    ensures Can(s, UnlockChecked(0)) && Alone(Do(s, UnlockChecked(0)), Checked, None)
  {
  }

  /** With no connection at all, as when every attempt of `init` failed, the first
      worker that registers a new name waits for ever. */
  lemma StuckWithoutConnections(requests: map<nat, nat>)
    requires 0 in requests && requests[0] > 0
    ensures var s := Reach([], requests, 1, [NextRequest(0), Lock(0), UnlockChecked(0)], 3);
            Unfinished(s, 0) && forall m :: !Can(s, m)
  {
    var moves := [NextRequest(0), Lock(0), UnlockChecked(0)];
    NoMoves([], requests, 1, moves);
    hide *;
    AloneStarts(Reach([], requests, 1, moves, 0));
    OneMove([], requests, 1, moves, 0);
    AloneLocks(Reach([], requests, 1, moves, 1));
    OneMove([], requests, 1, moves, 1);
    AloneUnlocks(Reach([], requests, 1, moves, 2));
    OneMove([], requests, 1, moves, 2);
    NobodyMoves(Reach([], requests, 1, moves, 3));
  }

  /** In general, without connections nobody who wants one ever moves again. */
  lemma {:induction false} WaitsForEver(requests: map<nat, nat>, n: nat, moves: seq<Move>, k: nat, m: nat, t: nat)
    requires k <= m <= |moves| && At(Reach([], requests, n, moves, k), t, Checked)
    requires forall t: nat | t < n :: t in requests
    ensures At(Reach([], requests, n, moves, m), t, Checked)
    decreases m
  {
    if k < m {
      WaitsForEver(requests, n, moves, k, m - 1, t);
      GoodReach([], requests, n, moves, m - 1);
      NothingListed(Reach([], requests, n, moves, m - 1).pool);
    }
  }

  lemma NothingListed(s: State)
    requires Inv([], s)
    ensures s.list == [] && s.sem == 0
  {
    SomeMember(s.list);
  }

  lemma SomeMember(list: seq<nat>)
    ensures list != [] ==> exists c :: c in list
  {
    if list != [] {
      assert list[0] in list;
    }
  }

  lemma NoMoves(conns: seq<nat>, requests: map<nat, nat>, n: nat, moves: seq<Move>)
    ensures var s := Reach(conns, requests, n, moves, 0);
            s.left == requests && (conns == [] && n == 1 && 0 in requests ==> Alone(s, Done, None))
  {
  }

  function Rank(pc: Pc): nat {
    match pc
    case Start => 8
    case Checking => 7
    case Checked => 6
    case Granted => 5
    case Connected => 4
    case Inserting => 3
    case Stored => 2
    case Posting => 1
    case Done => 0
  }

  /** How many moves the first `n` workers can still make. */
  function Work(s: System, n: nat): nat {
    if n == 0 then 0
    else
      var t := n - 1;
      Work(s, t) + if t in s.pc && t in s.left then Rank(s.pc[t]) + 9 * s.left[t] else 0
  }

  lemma {:induction false} WorkFalls(s: System, m: Move, n: nat)
    requires Can(s, m) && m.t in s.left
    ensures Work(Do(s, m), n) + (if m.t < n then 1 else 0) <= Work(s, n)
  {
    if n > 0 {
      WorkFalls(s, m, n - 1);
    }
  }

  /** Every request finishes: moves can only be made as often as there is work, so each
      run comes to a state where nobody can move, and there all are finished. */
  lemma {:induction false} AllFinish(conns: seq<nat>, requests: map<nat, nat>, n: nat, moves: seq<Move>, k: nat)
    requires Distinct(conns) && conns != [] && k <= |moves| && forall t: nat | t < n :: t in requests
    requires forall i | 0 <= i < k :: Can(Reach(conns, requests, n, moves, i), moves[i])
    ensures var s := Reach(conns, requests, n, moves, k);
            k + Work(s, n) <= Work(Reach(conns, requests, n, moves, 0), n)
    ensures var s := Reach(conns, requests, n, moves, k);
            (exists m :: Can(s, m)) || forall t: nat | t < n :: !Unfinished(s, t)
  {
    hide Can, Do, Work, Good, Unfinished, Distinct;
    if t: nat :| t < n && Unfinished(Reach(conns, requests, n, moves, k), t) {
      NoDeadlock(conns, requests, n, moves, k, t);
    }
    if k > 0 {
      AllFinish(conns, requests, n, moves, k - 1);
      GoodReach(conns, requests, n, moves, k - 1);
      WorkStep(conns, n, Reach(conns, requests, n, moves, k - 1), moves[k - 1]);
    }
  }

  lemma WorkStep(conns: seq<nat>, n: nat, s: System, m: Move)
    requires Good(conns, n, s) && Can(s, m)
    ensures Work(Do(s, m), n) < Work(s, n)
  {
    hide Inv;
    assert Known(s, m.t);
    WorkFalls(s, m, n);
  }
}
