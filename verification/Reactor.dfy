/** Who may touch a connection: the event loop of src/server_epoll.cpp and the workers
    hand it back and forth by arming it in epoll for one event. */
module Reactor {
  import opened Basics
  import opened Deadlines

  /** `armed` are the connections epoll watches, `batch` those whose event `epoll_wait`
      returned and the loop has still to see, `handling` the one it is seeing, `queued`
      and `running` those of tasks.  `deadlines` are the live timers, `timing` what was
      done to them. */
  datatype State = State(
    open: set<nat>, armed: set<nat>, batch: seq<nat>, handling: Option<nat>, queued: seq<nat>,
    running: multiset<nat>, deadlines: map<nat, int>, timing: seq<Event<nat>>)

  datatype Action =
    | Accept(fd: nat, now: int)
    | Poll(fds: seq<nat>)
    | See
    | ReadDone(now: int)      // `read_once` succeeded, a task is enqueued
    | WriteDone(now: int)     // `write` succeeded, having armed the connection
    | CloseByLoop(now: int)   // a failed read or write, or a hangup
    | StartTask
    | Rearm(fd: nat)          // the `modfd` at the end of `process`
    | CloseByWorker(fd: nat)  // the response could not be built
    | TimerTick(now: int)

  predicate Idle(s: State) {
    s.batch == [] && s.handling.None?
  }

  /** The kernel gives a new connection a number that is not open, and reports only armed
      connections, each once. */
  predicate Enabled(s: State, a: Action) {
    match a
    case Accept(fd, _) => fd !in s.open && s.handling.None?
    case Poll(fds) => Idle(s) && Distinct(fds) && forall fd | fd in fds :: fd in s.armed
    case See => s.batch != [] && s.handling.None?
    case ReadDone(_) => s.handling.Some?
    case WriteDone(_) => s.handling.Some?
    case CloseByLoop(_) => s.handling.Some?
    case StartTask => s.queued != []
    case Rearm(fd) => fd in s.running
    case CloseByWorker(fd) => fd in s.running && fd in s.open
    case TimerTick(_) => Idle(s)
  }

  function Timed(s: State, e: Event<nat>): State {
    s.(deadlines := After(s.deadlines, e), timing := s.timing + [e])
  }

  /** `modfd` changes nothing for a number that is not in epoll. */
  function Arm(s: State, fd: nat): set<nat> {
    if fd in s.open then s.armed + {fd} else s.armed
  }

  function Next(s: State, a: Action): State
    requires Enabled(s, a)
  {
    match a
    case Accept(fd, now) => Timed(s, Arrive(fd, now)).(open := s.open + {fd}, armed := s.armed + {fd})
    case Poll(fds) => s.(batch := fds, armed := s.armed - set fd | fd in fds)
    case See => s.(handling := Some(s.batch[0]), batch := s.batch[1..])
    case ReadDone(now) =>
      Timed(s, Touch(s.handling.value, now)).(handling := None, queued := s.queued + [s.handling.value])
    case WriteDone(now) =>
      Timed(s, Touch(s.handling.value, now)).(handling := None, armed := Arm(s, s.handling.value))
    case CloseByLoop(now) =>
      Timed(s, Drop(s.handling.value, now)).(handling := None, open := s.open - {s.handling.value},
                                             armed := s.armed - {s.handling.value})
    case StartTask => s.(queued := s.queued[1..], running := s.running + multiset{s.queued[0]})
    case Rearm(fd) => s.(running := s.running - multiset{fd}, armed := Arm(s, fd))
    case CloseByWorker(fd) => s.(open := s.open - {fd}, armed := s.armed - {fd})
    case TimerTick(now) =>
      var due := Due(s.deadlines, now);
      Timed(s, Event.Tick(now)).(open := s.open - due, armed := s.armed - due)
  }

  function One(b: bool): nat {
    if b then 1 else 0
  }

  function Times(fds: seq<nat>, fd: nat): nat {
    multiset(fds)[fd]
  }

  /** How many parties may touch a connection: epoll, which will give it to the loop; the
      loop; a task. */
  function Parties(s: State, fd: nat): nat {
    One(fd in s.armed) + Times(s.batch, fd) + One(s.handling == Some(fd)) + Times(s.queued, fd) + s.running[fd]
  }

  /** Each open connection has one party and one live timer; no other number has any. */
  ghost predicate Owned(s: State) {
    && (forall fd :: Parties(s, fd) == One(fd in s.open))
    && s.deadlines.Keys == s.open
  }

  /** The timers were used as the timer heap requires. */
  predicate TimersLegal(s: State) {
    Legal(s.timing) && s.deadlines == Upto(s.timing, |s.timing|)
  }

  /** A step that closes no connection behind the back of a task. */
  predicate Careful(s: State, a: Action) {
    !a.CloseByWorker? && (a.TimerTick? ==> Due(s.deadlines, a.now) <= s.armed)
  }

  lemma TimesTail(fds: seq<nat>, fd: nat)
    requires fds != []
    ensures Times(fds, fd) == Times(fds[1..], fd) + One(fds[0] == fd)
  {
    assert fds == [fds[0]] + fds[1..];
  }

  lemma TimesMore(fds: seq<nat>, x: nat, fd: nat)
    ensures Times(fds + [x], fd) == Times(fds, fd) + One(x == fd)
  {
  }

  lemma {:induction false} TimesOnce(fds: seq<nat>, fd: nat)
    requires Distinct(fds)
    ensures Times(fds, fd) == One(fd in fds)
  {
    if fds != [] {
      TimesTail(fds, fd);
      TimesOnce(fds[1..], fd);
      assert fd in fds <==> fd == fds[0] || fd in fds[1..];
    }
  }

  lemma PartiesNext(s: State, a: Action, fd: nat)
    requires Owned(s) && Enabled(s, a) && Careful(s, a)
    ensures Parties(Next(s, a), fd) == One(fd in Next(s, a).open)
  {
    hide Times, After;
    assert Parties(s, fd) == One(fd in s.open);
    match a
    case Accept(_, _) =>
    case Poll(fds) => TimesOnce(fds, fd); TimesOnce([], fd);
    case See => TimesTail(s.batch, fd);
    case ReadDone(_) => TimesMore(s.queued, s.handling.value, fd);
    case WriteDone(_) => assert Parties(s, s.handling.value) == One(s.handling.value in s.open);
    case CloseByLoop(_) =>
    case StartTask => TimesTail(s.queued, fd);
    case Rearm(x) => assert Parties(s, x) == One(x in s.open);
    case TimerTick(_) =>
    case CloseByWorker(_) =>
  }

  lemma HandledOpen(s: State)
    requires Owned(s) && s.handling.Some?
    ensures s.handling.value in s.deadlines
  {
    hide Times;
    assert Parties(s, s.handling.value) == One(s.handling.value in s.open);
  }

  lemma OwnedNext(s: State, a: Action)
    requires Owned(s) && Enabled(s, a) && Careful(s, a)
    ensures Owned(Next(s, a))
  {
    if s.handling.Some? {
      HandledOpen(s);
    }
    hide Parties;
    forall fd ensures Parties(Next(s, a), fd) == One(fd in Next(s, a).open) {
      PartiesNext(s, a, fd);
    }
  }

  /** A client is registered only without a live timer, and touched or dropped only with
      one: what the timer heap asks of its caller. */
  lemma TimersNext(s: State, a: Action)
    requires Owned(s) && TimersLegal(s) && Enabled(s, a) && Careful(s, a)
    ensures TimersLegal(Next(s, a))
  {
    hide After, Legal, Upto, Parties;
    var keys := s.deadlines;
    if s.handling.Some? {
      HandledOpen(s);
    }
    match a
    case Accept(fd, now) => OneMore(s.timing, Arrive(fd, now));
    case ReadDone(now) => OneMore(s.timing, Touch(s.handling.value, now));
    case WriteDone(now) => OneMore(s.timing, Touch(s.handling.value, now));
    case CloseByLoop(now) => OneMore(s.timing, Drop(s.handling.value, now));
    case TimerTick(now) => OneMore(s.timing, Event.Tick(now));
    case _ =>
  }

  /** Whose deadline a step sets or takes away, and that it touches no other. */
  lemma DeadlinesNext(s: State, a: Action, fd: nat)
    requires Owned(s) && Enabled(s, a)
    ensures var r := Next(s, a);
            var mine := (a.Accept? && a.fd == fd) || (s.handling == Some(fd) && (a.ReadDone? || a.WriteDone?));
            var gone := (a.CloseByLoop? && s.handling == Some(fd)) || (a.TimerTick? && fd in Due(s.deadlines, a.now));
            && (mine ==> fd in r.deadlines && r.deadlines[fd] == a.now + LIFETIME)
            && (gone ==> fd !in r.deadlines && fd !in r.open)
            && (!mine && !gone ==> (fd in r.deadlines <==> fd in s.deadlines)
                                   && (fd in s.deadlines ==> r.deadlines[fd] == s.deadlines[fd]))
  {
    if s.handling.Some? {
      HandledOpen(s);
    }
    hide Owned, Parties, Arm, Distinct;
    match a
    case Accept(_, _) =>
    case Poll(_) =>
    case See =>
    case ReadDone(_) =>
    case WriteDone(_) =>
    case CloseByLoop(_) =>
    case StartTask =>
    case Rearm(_) =>
    case CloseByWorker(_) =>
    case TimerTick(_) =>
  }

  /** The state after the first `k` steps; a step that is not enabled does not happen. */
  function Upon(steps: seq<Action>, k: nat): State
    requires k <= |steps|
  {
    if k == 0 then State({}, {}, [], None, [], multiset{}, map[], [])
    else
      var s := Upon(steps, k - 1);
      if Enabled(s, steps[k - 1]) then Next(s, steps[k - 1]) else s
  }

  /** Over every careful run: nobody shares a connection, and the timers are used
      legally. */
  lemma {:induction false} OneParty(steps: seq<Action>, k: nat)
    requires k <= |steps| && forall i | 0 <= i < k :: Careful(Upon(steps, i), steps[i])
    ensures Owned(Upon(steps, k)) && TimersLegal(Upon(steps, k))
  {
    if k > 0 {
      hide Owned, TimersLegal, Careful;
      OneParty(steps, k - 1);
      var s := Upon(steps, k - 1);
      if Enabled(s, steps[k - 1]) {
        OwnedNext(s, steps[k - 1]);
        TimersNext(s, steps[k - 1]);
      }
    }
  }

  // Where a connection is.

  datatype Place = Shut | Armed | Batched | Handled | Queued | Running

  function PlaceOf(s: State, fd: nat): Place {
    if fd in s.armed then Armed
    else if fd in s.batch then Batched
    else if s.handling == Some(fd) then Handled
    else if fd in s.queued then Queued
    else if s.running[fd] > 0 then Running
    else Shut
  }

  /** The step takes the connection from `from` to `to`. */
  predicate Goes(s: State, a: Action, fd: nat, from: Place, to: Place) {
    match a
    case Accept(x, _) => fd == x && from == Shut && to == Armed
    case Poll(fds) => fd in fds && from == Armed && to == Batched
    case See => s.batch != [] && fd == s.batch[0] && from == Batched && to == Handled
    case ReadDone(_) => s.handling == Some(fd) && from == Handled && to == Queued
    case WriteDone(_) => s.handling == Some(fd) && from == Handled && to == Armed
    case CloseByLoop(_) => s.handling == Some(fd) && from == Handled && to == Shut
    case StartTask => s.queued != [] && fd == s.queued[0] && from == Queued && to == Running
    case Rearm(x) => fd == x && from == Running && to == Armed
    case CloseByWorker(_) => false
    case TimerTick(now) => fd in Due(s.deadlines, now) && from == Armed && to == Shut
  }

  /** The life of a connection: every careful step moves it as the table says, and leaves
      it where it is if the table does not mention it. */
  lemma LifeNext(s: State, a: Action, fd: nat)
    requires Owned(s) && Enabled(s, a) && Careful(s, a)
    ensures var from, to := PlaceOf(s, fd), PlaceOf(Next(s, a), fd);
            from == to || Goes(s, a, fd, from, to)
    ensures (exists from, to :: Goes(s, a, fd, from, to)) ==>
              Goes(s, a, fd, PlaceOf(s, fd), PlaceOf(Next(s, a), fd))
    ensures fd in s.open <==> PlaceOf(s, fd) != Shut
  {
    hide Times, After, Owned;
    OwnedParties(s, fd);
    OwnedParties(Next(s, a), fd) by { OwnedNext(s, a); }
    PartiesPlace(s, fd);
    PartiesPlace(Next(s, a), fd);
    if a.See? {
      TimesTail(s.batch, fd);
      assert s.batch[0] in s.batch;
    }
    if a.StartTask? {
      TimesTail(s.queued, fd);
    }
    if a.ReadDone? {
      TimesMore(s.queued, s.handling.value, fd);
    }
  }

  /** Nobody waits for ever on its own: a queued connection can be started, a running one
      armed, one that the loop sees answered or closed, one that it has yet to see seen, and,
      when the loop is idle, an armed one polled and any free number accepted. */
  lemma NeverStuck(s: State, fd: nat, now: int)
    requires Owned(s)
    ensures PlaceOf(s, fd) == Queued ==> Enabled(s, StartTask) && s.queued != []
    ensures PlaceOf(s, fd) == Running ==> Enabled(s, Rearm(fd)) && Enabled(s, CloseByWorker(fd))
    ensures PlaceOf(s, fd) == Handled ==>
              Enabled(s, ReadDone(now)) && Enabled(s, WriteDone(now)) && Enabled(s, CloseByLoop(now))
    ensures PlaceOf(s, fd) == Batched ==> (Enabled(s, See) <==> s.handling.None?)
    ensures PlaceOf(s, fd) == Armed && Idle(s) ==> Enabled(s, Poll([fd]))
    ensures PlaceOf(s, fd) == Shut && s.handling.None? ==> Enabled(s, Accept(fd, now))
    ensures Idle(s) ==> Enabled(s, TimerTick(now))
  {
    hide Times;
    OwnedParties(s, fd);
    PartiesPlace(s, fd);
  }

  lemma OwnedParties(s: State, fd: nat)
    requires Owned(s)
    ensures Parties(s, fd) == One(fd in s.open) && s.deadlines.Keys == s.open
  {
  }

  lemma PartiesPlace(s: State, fd: nat)
    ensures Times(s.batch, fd) > 0 <==> fd in s.batch
    ensures Times(s.queued, fd) > 0 <==> fd in s.queued
  {
  }
  predicate Happens(steps: seq<Action>, i: nat)
    requires i < |steps|
  {
    Enabled(Upon(steps, i), steps[i])
  }

  /** The connections that were read from, in order. */
  function Reads(steps: seq<Action>, k: nat): seq<nat>
    requires k <= |steps|
  {
    if k == 0 then []
    else
      Reads(steps, k - 1)
      + if steps[k - 1].ReadDone? && Happens(steps, k - 1) then [Upon(steps, k - 1).handling.value] else []
  }

  /** Those a worker has begun to process, in order. */
  function Starts(steps: seq<Action>, k: nat): seq<nat>
    requires k <= |steps|
  {
    if k == 0 then []
    else
      Starts(steps, k - 1)
      + if steps[k - 1].StartTask? && Happens(steps, k - 1) then [Upon(steps, k - 1).queued[0]] else []
  }

  /** Those a worker has armed again. */
  function Ends(steps: seq<Action>, k: nat): seq<nat>
    requires k <= |steps|
  {
    if k == 0 then []
    else
      Ends(steps, k - 1) + if steps[k - 1].Rearm? && Happens(steps, k - 1) then [steps[k - 1].fd] else []
  }

  lemma UponNext(steps: seq<Action>, k: nat)
    requires k < |steps|
    ensures Upon(steps, k + 1)
            == if Happens(steps, k) then Next(Upon(steps, k), steps[k]) else Upon(steps, k)
  {
  }

  /** Every read is processed, in order: over every run, careful or not, the connections
      read from are those that a worker has begun to process, followed by those queued. */
  lemma {:induction false} EveryRead(steps: seq<Action>, k: nat)
    requires k <= |steps|
    ensures Reads(steps, k) == Starts(steps, k) + Upon(steps, k).queued
  {
    if k > 0 {
      EveryRead(steps, k - 1);
      UponNext(steps, k - 1);
      hide Next, Enabled, Upon;
      if Happens(steps, k - 1) {
        QueueNext(Upon(steps, k - 1), steps[k - 1], Starts(steps, k - 1));
      }
    }
  }

  /** A connection was begun as often as it is running and was armed again. */
  lemma {:induction false} EveryEnd(steps: seq<Action>, k: nat, fd: nat)
    requires k <= |steps|
    ensures Times(Starts(steps, k), fd) == Upon(steps, k).running[fd] + Times(Ends(steps, k), fd)
  {
    hide *;
    if k == 0 {
      NothingEnded(steps, fd);
    } else {
      EveryEnd(steps, k - 1, fd);
      UponNext(steps, k - 1);
      HistoryNext(steps, k - 1);
      EndNext(steps, k - 1, fd, Starts(steps, k - 1), Ends(steps, k - 1));
    }
  }

  lemma NothingEnded(steps: seq<Action>, fd: nat)
    ensures Times(Starts(steps, 0), fd) == 0 == Times(Ends(steps, 0), fd) && Upon(steps, 0).running[fd] == 0
  {
  }

  lemma HistoryNext(steps: seq<Action>, k: nat)
    requires k < |steps|
    ensures var a, s := steps[k], Upon(steps, k);
            && Starts(steps, k + 1)
               == Starts(steps, k) + (if a.StartTask? && Happens(steps, k) then [s.queued[0]] else [])
            && Ends(steps, k + 1) == Ends(steps, k) + if a.Rearm? && Happens(steps, k) then [a.fd] else []
  {
  }

  lemma EndNext(steps: seq<Action>, k: nat, fd: nat, starts: seq<nat>, ends: seq<nat>)
    requires k < |steps| && Times(starts, fd) == Upon(steps, k).running[fd] + Times(ends, fd)
    ensures var a, s := steps[k], Upon(steps, k);
            var r := if Happens(steps, k) then Next(s, a) else s;
            Times(starts + (if a.StartTask? && Happens(steps, k) then [s.queued[0]] else []), fd)
            == r.running[fd] + Times(ends + if a.Rearm? && Happens(steps, k) then [a.fd] else [], fd)
  {
    hide Next, Times, Upon, Enabled;
    var s, a := Upon(steps, k), steps[k];
    assert starts + [] == starts && ends + [] == ends;
    if Happens(steps, k) {
      RunningNext(s, a, fd);
      if a.StartTask? {
        TimesMore(starts, s.queued[0], fd);
      } else if a.Rearm? {
        TimesMore(ends, a.fd, fd);
      }
    }
  }

  lemma QueueNext(s: State, a: Action, starts: seq<nat>)
    requires Enabled(s, a)
    ensures a.ReadDone? ==> starts + s.queued + [s.handling.value] == starts + Next(s, a).queued
    ensures a.StartTask? ==> s.queued != [] && starts + s.queued == starts + [s.queued[0]] + Next(s, a).queued
    ensures !a.ReadDone? && !a.StartTask? ==> Next(s, a).queued == s.queued
    ensures a.ReadDone? ==> s.handling.Some?
  {
    hide After, Due;
  }

  lemma RunningNext(s: State, a: Action, fd: nat)
    requires Enabled(s, a)
    ensures a.StartTask? ==> s.queued != [] && Next(s, a).running[fd] == s.running[fd] + One(s.queued[0] == fd)
    ensures a.Rearm? ==> Next(s, a).running[fd] + One(a.fd == fd) == s.running[fd]
    ensures !a.StartTask? && !a.Rearm? ==> Next(s, a).running == s.running
  {
    hide After, Due;
  }

  /** In a careful run, from the step that read from a connection to the one by which its
      worker arms it, it is queued or running, open, and nowhere else. */
  lemma {:induction false} BusyUntilArmed(steps: seq<Action>, j: nat, k: nat, fd: nat)
    requires j < k <= |steps| && forall i | 0 <= i < k :: Careful(Upon(steps, i), steps[i])
    requires steps[j].ReadDone? && Happens(steps, j) && Upon(steps, j).handling == Some(fd)
    requires forall i | j < i < k && Happens(steps, i) :: steps[i] != Rearm(fd)
    ensures PlaceOf(Upon(steps, k), fd) in {Queued, Running}
    ensures var s := Upon(steps, k);
            fd in s.open && fd !in s.armed && fd !in s.batch && s.handling != Some(fd)
  {
    hide Owned, TimersLegal, Careful, Enabled, Next;
    OneParty(steps, k - 1);
    var s := Upon(steps, k - 1);
    if k - 1 > j {
      BusyUntilArmed(steps, j, k - 1, fd);
    }
    if Happens(steps, k - 1) {
      assert k - 1 == j ==> Goes(s, steps[j], fd, Handled, Queued);
      LifeNext(s, steps[k - 1], fd);
      OneParty(steps, k);
      OpenPlace(Upon(steps, k), fd);
    }
  }

  lemma OpenPlace(s: State, fd: nat)
    requires Owned(s)
    ensures fd in s.open <==> PlaceOf(s, fd) != Shut
  {
    hide Times;
    OwnedParties(s, fd);
    PartiesPlace(s, fd);
  }

  /** So a tick disconnects exactly the connections that were last read from, written to
      or accepted a lifetime before it. */
  lemma TickExactly(steps: seq<Action>, k: nat, now: int, fd: nat)
    requires k <= |steps| && forall i | 0 <= i < k :: Careful(Upon(steps, i), steps[i])
    ensures var s := Upon(steps, k);
            fd in Due(s.deadlines, now) <==>
              exists j: nat :: LastSeen(s.timing, |s.timing|, j, fd) && s.timing[j].now + 15 <= now
  {
    OneParty(steps, k);
    var s := Upon(steps, k);
    DeadlineIs(s.timing, |s.timing|, fd);
  }

  /** A tick keeps the connections apart exactly when all it disconnects are idle in
      epoll: no task of theirs is queued or running. */
  lemma TickKeepsApart(s: State, now: int)
    requires Owned(s) && Enabled(s, TimerTick(now))
    ensures Owned(Next(s, TimerTick(now))) <==> Due(s.deadlines, now) <= s.armed
  {
    var r := Next(s, TimerTick(now));
    if Due(s.deadlines, now) <= s.armed {
      OwnedNext(s, TimerTick(now));
    } else {
      var fd :| fd in Due(s.deadlines, now) && fd !in s.armed;
      hide Times;
      assert Parties(s, fd) == One(fd in s.open);
      assert Parties(r, fd) == 1;
    }
  }

  /** A worker that closes its connection always leaves its timer live, and when the loop
      accepts the number again, two parties have it.  What the timer does then is
      `TimerHeap.ReuseStruck`. */
  lemma WorkerCloseShares(s: State, fd: nat, now: int)
    requires Owned(s) && Enabled(s, CloseByWorker(fd))
    ensures var r := Next(s, CloseByWorker(fd));
            && !Owned(r) && fd in r.deadlines && fd !in r.open
            && (Enabled(r, Accept(fd, now)) <==> s.handling.None?)
            && (s.handling.None? ==> Parties(Next(r, Accept(fd, now)), fd) == 2)
  {
    hide Times;
    assert Parties(s, fd) == One(fd in s.open);
    assert Parties(Next(s, CloseByWorker(fd)), fd) == 1;
  }
}
