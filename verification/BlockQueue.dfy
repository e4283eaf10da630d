/** The bounded queue of src/block_queue.h: its operations as methods, and then every
    interleaving of them, a step being one stretch under the lock. */
module BlockQueue {
  /** What the loop of `pop` does with the lock held, at lines 90-97. */
  datatype Found<T> = Wait | Closed | Item(item: T)

  function Look<T>(queue: seq<T>, isClose: bool): Found<T> {
    if |queue| > 0 then Item(queue[0]) else if isClose then Closed else Wait
  }

  function Room<T>(queue: seq<T>, max: nat): bool {
    |queue| < max
  }

  /** Whom a push notifies, with the lock still held. */
  datatype Notify = One | All

  function Notified<T>(queue: seq<T>, max: nat): Notify {
    if Room(queue, max) then One else All
  }

  class BlockQueue<T> {
    var queue: seq<T>
    const maxSize: nat
    var isClose: bool

    constructor (maxSize: nat)
      requires maxSize > 0
      ensures queue == [] && this.maxSize == maxSize && !isClose
    {
      this.maxSize, queue, isClose := maxSize, [], false;
    }

    method Push(item: T) returns (pushed: bool, notify: Notify)
      modifies this`queue
      ensures pushed == (|old(queue)| < maxSize) && notify == if pushed then One else All
      ensures queue == if pushed then old(queue) + [item] else old(queue)
    {
      if |queue| >= maxSize {
        return false, All;
      }
      queue := queue + [item];
      return true, One;
    }

    /** One turn of the loop of `pop`. */
    method TryPop() returns (found: Found<T>)
      modifies this`queue
      ensures found == if old(queue) != [] then Item(old(queue)[0]) else if isClose then Closed else Wait
      ensures queue == if found.Item? then old(queue)[1..] else old(queue)
    {
      if |queue| <= 0 {
        if isClose {
          return Closed;
        }
        return Wait;
      }
      found := Item(queue[0]);
      queue := queue[1..];
    }

    method Clear()
      modifies this`queue
      ensures queue == []
    {
      queue := [];
    }

    method Close()
      modifies this`queue, this`isClose
      ensures queue == [] && isClose
    {
      queue := [];
      isClose := true;
    }
  }

  /** `waiting` are the consumers asleep in `pop`, `woken` those that were notified (or
      woke spuriously) and have not locked again; all others are outside `pop`.  `pushed`
      and `popped` are what was accepted and handed out since the last clear or close. */
  datatype State<T> = State(
    queue: seq<T>, closed: bool, told: bool, waiting: set<nat>, woken: set<nat>, pushed: seq<T>, popped: seq<T>)

  datatype Action<T> =
    | Push(item: T)                        // nobody waits, or the queue is full
    | PushWakes(item: T, consumer: nat)
    | Pop(consumer: nat)                   // enters `pop`, or locks again after a wakeup
    | Wake(consumer: nat)                  // a spurious wakeup
    | Clear
    | Close                                // the locked part of `close`
    | CloseNotify

  predicate Enabled<T>(max: nat, s: State<T>, a: Action<T>) {
    match a
    case Push(_) => Notified(s.queue, max) == All || s.waiting == {}
    case PushWakes(_, c) => Notified(s.queue, max) == One && c in s.waiting
    case Pop(c) => c !in s.waiting
    case Wake(c) => c in s.waiting
    case Clear => true
    case Close => true
    case CloseNotify => s.closed
  }

  function Pushed<T>(s: State<T>, item: T): State<T> {
    s.(queue := s.queue + [item], pushed := s.pushed + [item])
  }

  function Woke<T>(s: State<T>, c: nat): State<T> {
    s.(waiting := s.waiting - {c}, woken := s.woken + {c})
  }

  function Next<T>(max: nat, s: State<T>, a: Action<T>): State<T>
    requires Enabled(max, s, a)
  {
    match a
    case Push(item) =>
      if Notified(s.queue, max) == One then Pushed(s, item) else s.(waiting := {}, woken := s.woken + s.waiting)
    case PushWakes(item, c) => Woke(Pushed(s, item), c)
    case Pop(c) =>
      (match Look(s.queue, s.closed)
       case Wait => s.(waiting := s.waiting + {c}, woken := s.woken - {c})
       case Closed => s.(woken := s.woken - {c})
       case Item(item) => s.(queue := s.queue[1..], popped := s.popped + [item], woken := s.woken - {c}))
    case Wake(c) => Woke(s, c)
    case Clear => s.(queue := [], pushed := [], popped := [])
    case Close => s.(queue := [], closed := true, pushed := [], popped := [])
    case CloseNotify => s.(told := true, waiting := {}, woken := s.woken + s.waiting)
  }

  /** The state after the first `k` of some threads' steps; a step that is not enabled
      does not happen. */
  function After<T(==)>(max: nat, steps: seq<Action<T>>, k: nat): State<T>
    requires k <= |steps|
  {
    if k == 0 then State([], false, false, {}, {}, [], [])
    else
      var s := After(max, steps, k - 1);
      if Enabled(max, s, steps[k - 1]) then Next(max, s, steps[k - 1]) else s
  }

  /** Whoever waits was owed a wakeup for every queued item, and got it. */
  predicate NoLostWakeup<T>(s: State<T>) {
    s.waiting != {} ==> |s.queue| <= |s.woken|
  }

  predicate Inv<T(==)>(max: nat, s: State<T>) {
    && |s.queue| <= max
    && s.pushed == s.popped + s.queue
    && NoLostWakeup(s)
    && s.waiting !! s.woken
    && (s.told ==> s.closed && s.waiting == {})
  }

  lemma InvNext<T>(max: nat, s: State<T>, a: Action<T>)
    requires Inv(max, s) && Enabled(max, s, a)
    ensures Inv(max, Next(max, s, a))
  {
    var r := Next(max, s, a);
    assert r.pushed == r.popped + r.queue;
  }

  /** In every reachable state the queue is within its bound, what was accepted since the
      last clear or close is what was handed out followed by what is queued, and a
      consumer sleeps only when every queued item has a woken consumer coming for it. */
  lemma {:induction false} InvAfter<T>(max: nat, steps: seq<Action<T>>, k: nat)
    requires k <= |steps|
    ensures Inv(max, After(max, steps, k))
  {
    hide Inv;
    if k == 0 {
      InvStart<T>(max);
    } else {
      InvAfter(max, steps, k - 1);
      if Enabled(max, After(max, steps, k - 1), steps[k - 1]) {
        InvNext(max, After(max, steps, k - 1), steps[k - 1]);
      }
    }
  }

  lemma InvStart<T>(max: nat)
    ensures Inv<T>(max, State([], false, false, {}, {}, [], []))
  {
  }

  /** No lost wakeup: nobody sleeps on a queue that no one is coming for. */
  lemma NeverAsleep<T>(max: nat, steps: seq<Action<T>>, k: nat)
    requires k <= |steps|
    ensures var s := After(max, steps, k);
            s.waiting != {} && s.queue != [] ==>
              exists c :: c in s.woken && Enabled(max, s, Pop(c)) && Look(s.queue, s.closed).Item?
  {
    InvAfter(max, steps, k);
    var s := After(max, steps, k);
    if s.waiting != {} && s.queue != [] {
      var c :| c in s.woken;
      assert Enabled(max, s, Pop(c));
    }
  }

  /** The items that pushes have brought since the last clear or close, in order: those that
      found fewer than `max` in the queue. */
  function Accepted<T(==)>(max: nat, steps: seq<Action<T>>, k: nat): seq<T>
    requires k <= |steps|
  {
    if k == 0 then []
    else
      var s, a := After(max, steps, k - 1), steps[k - 1];
      if !Enabled(max, s, a) then Accepted(max, steps, k - 1)
      else if a.Clear? || a.Close? then []
      else if (a.Push? || a.PushWakes?) && |s.queue| < max then Accepted(max, steps, k - 1) + [a.item]
      else Accepted(max, steps, k - 1)
  }

  /** The items that consumers were given since then: whatever was in front. */
  function Given<T(==)>(max: nat, steps: seq<Action<T>>, k: nat): seq<T>
    requires k <= |steps|
  {
    if k == 0 then []
    else
      var s, a := After(max, steps, k - 1), steps[k - 1];
      if !Enabled(max, s, a) then Given(max, steps, k - 1)
      else if a.Clear? || a.Close? then []
      else if a.Pop? && s.queue != [] then Given(max, steps, k - 1) + [s.queue[0]]
      else Given(max, steps, k - 1)
  }

  /** First in, first out, over every run: what pushes brought is what consumers were given
      followed by what is queued; a push is refused only by a full queue. */
  lemma {:induction false} AllHandedOut<T>(max: nat, steps: seq<Action<T>>, k: nat)
    requires k <= |steps|
    ensures Accepted(max, steps, k) == Given(max, steps, k) + After(max, steps, k).queue
    ensures |After(max, steps, k).queue| <= max
  {
    if k > 0 {
      AllHandedOut(max, steps, k - 1);
      var s, a := After(max, steps, k - 1), steps[k - 1];
      if Enabled(max, s, a) {
        HandedNext(max, s, a, Accepted(max, steps, k - 1), Given(max, steps, k - 1));
      }
      hide Next, Enabled;
    }
  }

  lemma HandedNext<T>(max: nat, s: State<T>, a: Action<T>, accepted: seq<T>, given: seq<T>)
    requires Enabled(max, s, a) && accepted == given + s.queue && |s.queue| <= max
    ensures |Next(max, s, a).queue| <= max
    ensures a.Clear? || a.Close? ==> Next(max, s, a).queue == []
    ensures (a.Push? || a.PushWakes?) && |s.queue| < max ==> accepted + [a.item] == given + Next(max, s, a).queue
    ensures a.Pop? && s.queue != [] ==> accepted == given + [s.queue[0]] + Next(max, s, a).queue
    ensures !(a.Clear? || a.Close? || ((a.Push? || a.PushWakes?) && |s.queue| < max) || (a.Pop? && s.queue != [])) ==>
              Next(max, s, a).queue == s.queue
  {
  }

  /** Producers never wait, and a consumer that is awake can always look. */
  lemma NobodyBlocked<T>(max: nat, s: State<T>, item: T, c: nat)
    ensures Enabled(max, s, Push(item)) || exists w :: Enabled(max, s, PushWakes(item, w))
    ensures c !in s.waiting ==> Enabled(max, s, Pop(c))
  {
    if s.waiting != {} && |s.queue| < max {
      var w :| w in s.waiting;
      assert Enabled(max, s, PushWakes(item, w));
    }
  }

  /** Who sleeps: a consumer goes to sleep exactly when it finds the queue empty and open, and
      is woken by a push that picks it, a push that is refused, a close, or by chance. */
  lemma SleepsNext<T>(max: nat, s: State<T>, a: Action<T>, c: nat)
    requires Inv(max, s) && Enabled(max, s, a)
    ensures c !in s.waiting ==>
              (c in Next(max, s, a).waiting <==> a == Pop(c) && s.queue == [] && !s.closed)
    ensures c in s.waiting ==>
              (c !in Next(max, s, a).waiting
               <==> || (a.PushWakes? && a.consumer == c) || (a.Push? && |s.queue| >= max)
                    || a.CloseNotify? || a == Wake(c))
    ensures c in s.waiting && c !in Next(max, s, a).waiting ==> c in Next(max, s, a).woken
  {
  }

  /** Whoever closes the queue gets to notify, and finds everybody awake. */
  lemma CloseWakesAll<T>(max: nat, s: State<T>)
    requires Inv(max, s)
    ensures var r := Next(max, s, Close);
            && Enabled(max, r, CloseNotify) && r.queue == []
            && var d := Next(max, r, CloseNotify);
               d.told && d.waiting == {} && d.woken == s.woken + s.waiting
  {
    InvNext(max, s, Close);
  }

  /** Once a `close` has notified, no consumer is asleep, then or ever after. */
  lemma {:induction false} ClosedNeverWaits<T>(max: nat, steps: seq<Action<T>>, k: nat, m: nat)
    requires k <= m <= |steps| && After(max, steps, k).told
    ensures var s := After(max, steps, m);
            s.told && s.closed && s.waiting == {} && !Look(s.queue, s.closed).Wait?
    decreases m
  {
    InvAfter(max, steps, m);
    if k < m {
      ClosedNeverWaits(max, steps, k, m - 1);
    }
  }

  /** The next item handed out is the oldest one accepted and not yet handed out. */
  lemma OldestFirst<T>(max: nat, steps: seq<Action<T>>, k: nat, c: nat)
    requires k <= |steps| && Enabled(max, After(max, steps, k), Pop(c))
    ensures var s := After(max, steps, k);
            match Look(s.queue, s.closed)
            case Item(item) => |s.popped| < |s.pushed| && item == s.pushed[|s.popped|]
            case _ => s.popped == s.pushed
  {
    InvAfter(max, steps, k);
  }
}
