/** What the timer heap is for: a map from client to deadline, and which clients a
    run of registrations, activity, closings and ticks disconnects. */
module Deadlines {
  const LIFETIME: int := 15   // three slots of five seconds

  /** What the server does with its timers, and when. */
  datatype Event<C> =
    | Arrive(client: C, now: int)
    | Touch(client: C, now: int)
    | Drop(client: C, now: int)
    | Tick(now: int)

  function Due<C>(m: map<C, int>, now: int): set<C> {
    set c | c in m && m[c] <= now
  }

  function After<C>(m: map<C, int>, e: Event<C>): map<C, int> {
    match e
    case Arrive(c, now) => m[c := now + LIFETIME]
    case Touch(c, now) => if c in m then m[c := now + LIFETIME] else m
    case Drop(c, _) => m - {c}
    case Tick(now) => m - Due(m, now)
  }

  /** The deadlines after the first `n` events. */
  function Upto<C>(es: seq<Event<C>>, n: nat): map<C, int>
    requires n <= |es|
  {
    if n == 0 then map[] else After(Upto(es, n - 1), es[n - 1])
  }

  /** Only a client without a deadline is registered; only one with a deadline is
      active or closed. */
  predicate Fits<C>(m: map<C, int>, e: Event<C>) {
    match e
    case Arrive(c, _) => c !in m
    case Touch(c, _) => c in m
    case Drop(c, _) => c in m
    case Tick(_) => true
  }

  predicate FitsAt<C(==)>(es: seq<Event<C>>, i: nat)
    requires i < |es|
  {
    Fits(Upto(es, i), es[i])
  }

  predicate Legal<C(==)>(es: seq<Event<C>>) {
    forall i | 0 <= i < |es| :: FitsAt(es, i)
  }

  predicate Renews<C(==)>(e: Event<C>, c: C) {
    (e.Arrive? || e.Touch?) && e.client == c
  }

  /** The event takes away a deadline set at time `since`. */
  predicate Ends<C(==)>(e: Event<C>, c: C, since: int) {
    Renews(e, c) || (e.Drop? && e.client == c) || (e.Tick? && e.now >= since + LIFETIME)
  }

  /** Event `j` is the last sign of life of `c` before event `n`, and no tick since then
      came as late as its deadline. */
  predicate LastSeen<C(==)>(es: seq<Event<C>>, n: nat, j: nat, c: C)
    requires n <= |es|
  {
    j < n && Renews(es[j], c) && forall k | j < k < n :: !Ends(es[k], c, es[j].now)
  }

  /** One event: a renewal sets the deadline of `c`, and what does not end it keeps it. */
  lemma OneEvent<C>(m: map<C, int>, e: Event<C>, c: C)
    requires Fits(m, e)
    ensures Renews(e, c) ==> c in After(m, e) && After(m, e)[c] == e.now + LIFETIME
    ensures !Renews(e, c) ==> (c in After(m, e) <==> c in m && !Ends(e, c, m[c] - LIFETIME))
    ensures !Renews(e, c) && c in After(m, e) ==> After(m, e)[c] == m[c]
  {
  }

  lemma {:induction false} SeenSets<C>(es: seq<Event<C>>, n: nat, j: nat, c: C)
    requires Legal(es) && n <= |es| && LastSeen(es, n, j, c)
    ensures c in Upto(es, n) && Upto(es, n)[c] == es[j].now + LIFETIME
  {
    hide After, Fits, Renews, Ends;
    var m, e := Upto(es, n - 1), es[n - 1];
    assert FitsAt(es, n - 1);
    OneEvent(m, e, c);
    if j < n - 1 {
      SeenSets(es, n - 1, j, c);
      assert !Ends(e, c, es[j].now);
      EndsRenewed(e, c, es[j].now);
    }
  }

  lemma EndsRenewed<C>(e: Event<C>, c: C, since: int)
    ensures Renews(e, c) ==> Ends(e, c, since)
  {
  }

  /** Whoever has a deadline was seen. */
  lemma {:induction false} SetSeen<C>(es: seq<Event<C>>, n: nat, c: C) returns (j: nat)
    requires Legal(es) && n <= |es| && c in Upto(es, n)
    ensures LastSeen(es, n, j, c)
  {
    hide After, Fits, Renews, Ends;
    var m, e := Upto(es, n - 1), es[n - 1];
    assert FitsAt(es, n - 1);
    OneEvent(m, e, c);
    if Renews(e, c) {
      j := n - 1;
    } else {
      j := SetSeen(es, n - 1, c);
      SeenSets(es, n - 1, j, c);
      assert !Ends(e, c, es[j].now);
    }
  }

  /** The deadlines after any legal run, read off the events alone. */
  lemma DeadlineIs<C>(es: seq<Event<C>>, n: nat, c: C)
    requires Legal(es) && n <= |es|
    ensures c in Upto(es, n) <==> exists j: nat :: LastSeen(es, n, j, c)
    ensures forall j: nat | LastSeen(es, n, j, c) :: c in Upto(es, n) && Upto(es, n)[c] == es[j].now + LIFETIME
  {
    hide Legal, Upto, Renews, Ends;
    if c in Upto(es, n) {
      var j := SetSeen(es, n, c);
    }
    forall j: nat | LastSeen(es, n, j, c) ensures c in Upto(es, n) && Upto(es, n)[c] == es[j].now + LIFETIME {
      SeenSets(es, n, j, c);
    }
  }

  /** Exactly who is disconnected: a tick strikes the clients last seen at least
      LIFETIME before it, unless they were closed or struck in between.  No client is
      struck early, and the first tick that comes late enough strikes. */
  lemma StruckExactly<C>(es: seq<Event<C>>, n: nat, c: C)
    requires Legal(es) && n < |es| && es[n].Tick?
    ensures c in Due(Upto(es, n), es[n].now) <==>
            exists j: nat :: LastSeen(es, n, j, c) && es[j].now + 15 <= es[n].now
    ensures c in Due(Upto(es, n), es[n].now) ==> c !in Upto(es, n + 1)
  {
    DeadlineIs(es, n, c);
  }

  /** Event `j` was a sign of life of `c`, set a deadline at `expire`, and no tick since
      then, before event `n`, came that late. */
  predicate SetBy<C(==)>(es: seq<Event<C>>, n: nat, j: nat, c: C, expire: int)
    requires n <= |es|
  {
    && j < n && Renews(es[j], c) && expire == es[j].now + LIFETIME
    && forall k | j < k < n && es[k].Tick? :: es[k].now < expire
  }

  /** A deadline that no tick has reached yet, kept or since replaced. */
  ghost predicate Pending<C>(es: seq<Event<C>>, n: nat, c: C, expire: int)
    requires n <= |es|
  {
    exists j: nat :: SetBy(es, n, j, c, expire)
  }

  lemma {:induction false} SamePrefix<C>(es: seq<Event<C>>, e: Event<C>, n: nat)
    requires n <= |es|
    ensures Upto(es + [e], n) == Upto(es, n)
  {
    if n > 0 {
      SamePrefix(es, e, n - 1);
    }
  }

  lemma OneMore<C>(es: seq<Event<C>>, e: Event<C>)
    requires Legal(es) && Fits(Upto(es, |es|), e)
    ensures Legal(es + [e]) && Upto(es + [e], |es| + 1) == After(Upto(es, |es|), e)
  {
    hide Fits, After;
    SamePrefix(es, e, |es|);
    forall i | 0 <= i <= |es| ensures FitsAt(es + [e], i) {
      SamePrefix(es, e, i);
      if i < |es| {
        assert FitsAt(es, i);
      }
    }
  }

  lemma PendingNext<C>(es: seq<Event<C>>, n: nat, c: C, expire: int)
    requires n < |es|
    requires (Renews(es[n], c) && expire == es[n].now + LIFETIME)
             || (Pending(es, n, c, expire) && (es[n].Tick? ==> es[n].now < expire))
    ensures Pending(es, n + 1, c, expire)
  {
    if Renews(es[n], c) && expire == es[n].now + LIFETIME {
      assert SetBy(es, n + 1, n, c, expire);
    } else {
      var j: nat :| SetBy(es, n, j, c, expire);
      assert SetBy(es, n + 1, j, c, expire);
    }
  }
}
