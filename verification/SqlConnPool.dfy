/** The connection pool of src/sql_conn_pool.cpp: a list under a mutex and a semaphore
    that counts it, used by any number of threads. */
module SqlConnPool {
  import opened Basics

  /** The connections that `init` keeps: those whose attempt succeeded. */
  function Opened(attempts: seq<Option<nat>>): (r: seq<nat>) {
    if attempts == [] then []
    else
      var n := |attempts| - 1;
      if attempts[n].Some? then Opened(attempts[..n]) + [attempts[n].value] else Opened(attempts[..n])
  }

  /** The fields under the mutex.  A connection is known by a number, and a failed
      attempt to open one is None. */
  class Pool {
    var connList: seq<nat>
    var freeCount: nat

    /** `init`: the semaphore starts at `freeCount`. */
    constructor Init(attempts: seq<Option<nat>>)
      ensures connList == Opened(attempts) && freeCount == |connList|
    {
      connList, freeCount := [], 0;
      new;
      var i := 0;
      while i < |attempts|
        invariant 0 <= i <= |attempts|
        invariant connList == Opened(attempts[..i]) && freeCount == |connList|
      {
        assert attempts[..i + 1][..i] == attempts[..i];
        if attempts[i].Some? {
          connList := connList + [attempts[i].value];
          freeCount := freeCount + 1;
        }
        i := i + 1;
      }
      assert attempts[..i] == attempts;
    }

    /** The locked part of `GetConn`: None stands for a null pointer. */
    method PopFront() returns (sql: Option<nat>)
      modifies this`connList
      ensures old(connList) == [] ==> sql == None && connList == []
      ensures old(connList) != [] ==> sql == Some(old(connList)[0]) && connList == old(connList)[1..]
    {
      sql := None;
      if connList != [] {
        sql := Some(connList[0]);
        connList := connList[1..];
      }
    }
  }

  /** How many of the first `i` attempts succeeded. */
  function Successes(attempts: seq<Option<nat>>, i: nat): nat
    requires i <= |attempts|
  {
    if i == 0 then 0 else Successes(attempts, i - 1) + if attempts[i - 1].Some? then 1 else 0
  }

  /** Each success is listed, in the order of the attempts, and nothing else is. */
  lemma {:induction false} OpenedExactly(attempts: seq<Option<nat>>, m: nat)
    requires m <= |attempts|
    ensures |Opened(attempts[..m])| == Successes(attempts, m)
    ensures forall i | 0 <= i < m && attempts[i].Some? ::
              && Successes(attempts, i) < |Opened(attempts[..m])|
              && Opened(attempts[..m])[Successes(attempts, i)] == attempts[i].value
  {
    if m > 0 {
      OpenedExactly(attempts, m - 1);
      assert attempts[..m][..m - 1] == attempts[..m - 1];
    }
  }

  function Front(list: seq<nat>): Option<nat> {
    if list == [] then None else Some(list[0])
  }

  function Rest(list: seq<nat>): seq<nat> {
    if list == [] then [] else list[1..]
  }

  /** `Granted` is past `sem_wait`, `Posting` before `sem_post`; `Loan(None)` is a thread
      that was given a null pointer. */
  datatype Thread = Idle | Granted | Loan(conn: Option<nat>) | Posting

  datatype State = State(list: seq<nat>, sem: nat, threads: map<nat, Thread>)

  datatype Action = SemWait(thread: nat) | Take(thread: nat) | GiveBack(thread: nat) | SemPost(thread: nat)

  predicate Is(s: State, t: nat, k: Thread) {
    t in s.threads && s.threads[t] == k
  }

  predicate Holds(s: State, t: nat, c: nat) {
    Is(s, t, Loan(Some(c)))
  }

  /** `FreeConn` is only reached with a connection; a null one is not given back. */
  predicate Enabled(s: State, a: Action) {
    match a
    case SemWait(t) => Is(s, t, Idle) && s.sem > 0
    case Take(t) => Is(s, t, Granted)
    case GiveBack(t) => t in s.threads && s.threads[t].Loan?
    case SemPost(t) => Is(s, t, Posting)
  }

  function Next(s: State, a: Action): State
    requires Enabled(s, a)
  {
    match a
    case SemWait(t) => s.(sem := s.sem - 1, threads := s.threads[t := Granted])
    case Take(t) => s.(threads := s.threads[t := Loan(Front(s.list))], list := Rest(s.list))
    case GiveBack(t) =>
      if s.threads[t].conn.None? then s.(threads := s.threads[t := Idle])
      else s.(threads := s.threads[t := Posting], list := s.list + [s.threads[t].conn.value])
    case SemPost(t) => s.(sem := s.sem + 1, threads := s.threads[t := Idle])
  }

  function Crew(n: nat): (r: map<nat, Thread>)
    ensures forall t: nat :: t in r <==> t < n
    ensures forall t | t in r :: r[t] == Idle
  {
    if n == 0 then map[] else Crew(n - 1)[n - 1 := Idle]
  }

  function After(conns: seq<nat>, n: nat, steps: seq<Action>, k: nat): State
    requires k <= |steps|
  {
    if k == 0 then State(conns, |conns|, Crew(n))
    else
      var s := After(conns, n, steps, k - 1);
      if Enabled(s, steps[k - 1]) then Next(s, steps[k - 1]) else s
  }

  function Those(threads: map<nat, Thread>, k: Thread): set<nat> {
    set t | t in threads && threads[t] == k
  }

  /** The list is as long as the semaphore says, but for the threads under way. */
  predicate Counted(s: State) {
    |s.list| == s.sem + |Those(s.threads, Granted)| + |Those(s.threads, Posting)|
  }

  /** Listed and lent connections together are the initial ones, each in one place. */
  ghost predicate Partitioned(conns: seq<nat>, s: State) {
    && Distinct(s.list)
    && (forall c: nat :: c in conns <==> c in s.list || Lent(s, c))
    && (forall t, c: nat | Holds(s, t, c) :: c !in s.list)
    && (forall t, u, c: nat | Holds(s, t, c) && Holds(s, u, c) :: t == u)
  }

  ghost predicate Lent(s: State, c: nat) {
    exists t :: Holds(s, t, c)
  }

  predicate NoNull(s: State) {
    forall t | t in s.threads :: s.threads[t] != Loan(None)
  }

  ghost predicate Inv(conns: seq<nat>, s: State) {
    Counted(s) && Partitioned(conns, s) && NoNull(s)
  }

  lemma ThoseUpdated(m: map<nat, Thread>, t: nat, k: Thread, q: Thread)
    requires t in m
    ensures |Those(m[t := k], q)| - |Those(m, q)| == (if k == q then 1 else 0) - (if m[t] == q then 1 else 0)
  {
    var was, now := Those(m, q), Those(m[t := k], q);
    assert now == if k == q then was + {t} else was - {t};
    if k == q && t in was {
      assert now == was;
    }
  }

  lemma SomeListed(s: State, t: nat)
    requires Counted(s) && Is(s, t, Granted)
    ensures s.list != []
  {
    assert t in Those(s.threads, Granted);
  }

  lemma CountedNext(s: State, a: Action)
    requires Counted(s) && NoNull(s) && Enabled(s, a)
    ensures Counted(Next(s, a))
  {
    var t := a.thread;
    if a.Take? {
      SomeListed(s, t);
    }
    hide Those;
    var k := Next(s, a).threads[t];
    ThoseUpdated(s.threads, t, k, Granted);
    ThoseUpdated(s.threads, t, k, Posting);
  }

  lemma PartitionedTake(conns: seq<nat>, s: State, t: nat)
    requires Partitioned(conns, s) && Enabled(s, Take(t)) && s.list != []
    ensures Partitioned(conns, Next(s, Take(t)))
  {
    var r := Next(s, Take(t));
    var first := s.list[0];
    assert Holds(r, t, first);
    assert s.list == [first] + r.list;
    forall c: nat ensures c in conns <==> c in r.list || Lent(r, c) {
      if u :| Holds(s, u, c) {
        assert Holds(r, u, c);
      }
      if u :| Holds(r, u, c) {
        assert u == t || Holds(s, u, c);
      }
    }
    forall u, c: nat | Holds(r, u, c) ensures c !in r.list && (u == t ==> c == first) && (u != t ==> Holds(s, u, c)) {
      assert u == t || Holds(s, u, c);
    }
  }

  lemma PartitionedGiveBack(conns: seq<nat>, s: State, t: nat)
    requires Partitioned(conns, s) && NoNull(s) && Enabled(s, GiveBack(t))
    ensures Partitioned(conns, Next(s, GiveBack(t)))
  {
    var r := Next(s, GiveBack(t));
    var mine := s.threads[t].conn.value;
    assert Holds(s, t, mine);
    forall c: nat ensures c in conns <==> c in r.list || Lent(r, c) {
      if u :| Holds(s, u, c) {
        assert if u == t then c in r.list else Holds(r, u, c);
      }
      if u :| Holds(r, u, c) {
        assert Holds(s, u, c);
      }
    }
    forall u, c: nat | Holds(r, u, c) ensures c !in r.list && Holds(s, u, c) {
      assert Holds(s, u, c);
    }
  }

  lemma PartitionedSame(conns: seq<nat>, s: State, r: State)
    requires Partitioned(conns, s) && r.list == s.list
    requires forall t, c: nat :: Holds(r, t, c) == Holds(s, t, c)
    ensures Partitioned(conns, r)
  {
    forall c: nat ensures Lent(r, c) == Lent(s, c) {
      if t :| Holds(s, t, c) {
        assert Holds(r, t, c);
      }
      if t :| Holds(r, t, c) {
        assert Holds(s, t, c);
      }
    }
  }

  lemma InvNext(conns: seq<nat>, s: State, a: Action)
    requires Inv(conns, s) && Enabled(s, a)
    ensures Inv(conns, Next(s, a))
  {
    hide Counted, Partitioned;
    CountedNext(s, a);
    match a
    case Take(t) =>
      SomeListed(s, t);
      PartitionedTake(conns, s, t);
    case GiveBack(t) => PartitionedGiveBack(conns, s, t);
    case SemWait(t) => PartitionedSame(conns, s, Next(s, a));
    case SemPost(t) => PartitionedSame(conns, s, Next(s, a));
  }

  lemma InvStart(conns: seq<nat>, n: nat)
    requires Distinct(conns)
    ensures Inv(conns, State(conns, |conns|, Crew(n)))
  {
    assert Those(Crew(n), Granted) == {} && Those(Crew(n), Posting) == {};
  }

  /** Every interleaving of every number of threads: the list is counted exactly by the
      semaphore, and no connection is lost, invented or in two hands. */
  lemma {:induction false} InvAfter(conns: seq<nat>, n: nat, steps: seq<Action>, k: nat)
    requires Distinct(conns) && k <= |steps|
    ensures Inv(conns, After(conns, n, steps, k))
  {
    hide Inv, Distinct;
    if k == 0 {
      InvStart(conns, n);
    } else {
      InvAfter(conns, n, steps, k - 1);
      if Enabled(After(conns, n, steps, k - 1), steps[k - 1]) {
        InvNext(conns, After(conns, n, steps, k - 1), steps[k - 1]);
      }
    }
  }

  /** The connections lent so far, in order, and those given back. */
  function Lendings(conns: seq<nat>, n: nat, steps: seq<Action>, k: nat): seq<nat>
    requires k <= |steps|
  {
    if k == 0 then []
    else
      var s, a := After(conns, n, steps, k - 1), steps[k - 1];
      Lendings(conns, n, steps, k - 1) + if a.Take? && Enabled(s, a) && s.list != [] then [s.list[0]] else []
  }

  function Returns(conns: seq<nat>, n: nat, steps: seq<Action>, k: nat): seq<nat>
    requires k <= |steps|
  {
    if k == 0 then []
    else
      var s, a := After(conns, n, steps, k - 1), steps[k - 1];
      Returns(conns, n, steps, k - 1)
      + if a.GiveBack? && Enabled(s, a) && s.threads[a.thread].conn.Some? then [s.threads[a.thread].conn.value] else []
  }

  /** Connections go round: they are lent in the order in which they were opened and then
      given back. */
  lemma {:induction false} GoRound(conns: seq<nat>, n: nat, steps: seq<Action>, k: nat)
    requires k <= |steps|
    ensures conns + Returns(conns, n, steps, k) == Lendings(conns, n, steps, k) + After(conns, n, steps, k).list
  {
    hide *;
    if k == 0 {
      NothingLent(conns, n, steps);
    } else {
      GoRound(conns, n, steps, k - 1);
      RoundNext(conns, n, steps, k - 1);
    }
  }

  lemma NothingLent(conns: seq<nat>, n: nat, steps: seq<Action>)
    ensures Lendings(conns, n, steps, 0) == Returns(conns, n, steps, 0) == [] && After(conns, n, steps, 0).list == conns
  {
  }

  lemma RoundNext(conns: seq<nat>, n: nat, steps: seq<Action>, k: nat)
    requires k < |steps|
    requires conns + Returns(conns, n, steps, k) == Lendings(conns, n, steps, k) + After(conns, n, steps, k).list
    ensures conns + Returns(conns, n, steps, k + 1)
            == Lendings(conns, n, steps, k + 1) + After(conns, n, steps, k + 1).list
  {
    var s, a := After(conns, n, steps, k), steps[k];
    var given, back := Lendings(conns, n, steps, k), Returns(conns, n, steps, k);
    assert back + [] == back && given + [] == given;
    if Enabled(s, a) {
      ListNext(s, a, conns, given, back);
    }
    hide Next, Enabled;
  }

  lemma ListNext(s: State, a: Action, conns: seq<nat>, given: seq<nat>, back: seq<nat>)
    requires Enabled(s, a) && conns + back == given + s.list
    ensures a.Take? && s.list != [] ==> conns + back == given + [s.list[0]] + Next(s, a).list
    ensures a.GiveBack? && s.threads[a.thread].conn.Some? ==>
              conns + (back + [s.threads[a.thread].conn.value]) == given + Next(s, a).list
    ensures !(a.Take? && s.list != []) && !(a.GiveBack? && s.threads[a.thread].conn.Some?) ==>
              Next(s, a).list == s.list
  {
    if a.GiveBack? && s.threads[a.thread].conn.Some? {
      var c := s.threads[a.thread].conn.value;
      assert conns + (back + [c]) == (conns + back) + [c];
      assert given + (s.list + [c]) == (given + s.list) + [c];
    }
  }

  /** What a thread does: wait, take, give back, post, and again; and nothing for another. */
  lemma ThreadNext(s: State, a: Action, t: nat)
    requires Enabled(s, a) && t in s.threads && NoNull(s)
    ensures t in Next(s, a).threads
    ensures t != a.thread ==> Next(s, a).threads[t] == s.threads[t]
    ensures t == a.thread ==>
              var from, to := s.threads[t], Next(s, a).threads[t];
              || (from == Idle && to == Granted && s.sem > 0)
              || (from == Granted && to.Loan?)
              || (from.Loan? && to == Posting)
              || (from == Posting && to == Idle)
  {
  }

  /** `GetConn` never returns null: whoever passed the semaphore takes a connection that
      is one of the initial ones and that nobody else holds. */
  lemma NeverNull(conns: seq<nat>, n: nat, steps: seq<Action>, k: nat, t: nat)
    requires Distinct(conns) && k <= |steps| && Enabled(After(conns, n, steps, k), Take(t))
    ensures var s := After(conns, n, steps, k);
            && s.list != [] && s.list[0] in conns && !Lent(s, s.list[0])
            && var r := Next(s, Take(t)); Holds(r, t, s.list[0]) && r.list == s.list[1..] && r.sem == s.sem
  {
    InvAfter(conns, n, steps, k);
    SomeListed(After(conns, n, steps, k), t);
  }

  /** When no thread is in or between the two calls, all connections are back. */
  lemma AllBack(conns: seq<nat>, s: State)
    requires Inv(conns, s) && forall t | t in s.threads :: s.threads[t] == Idle
    ensures s.sem == |s.list| && forall c: nat :: c in conns <==> c in s.list
    ensures conns != [] ==> s.sem > 0
  {
    assert Those(s.threads, Granted) == {} && Those(s.threads, Posting) == {};
    forall c: nat ensures !Lent(s, c) {
      assert forall t :: !Holds(s, t, c);
    }
    if conns != [] {
      assert conns[0] in s.list;
    }
  }
}
