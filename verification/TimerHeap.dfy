/** The timer heap of src/lst_timer.h: an array min-heap of timer pointers that
    never removes an entry on request.  `DelTimer` and `AdjustTimer` only clear an
    entry's callback; `Tick` discards such entries when they reach the root. */
module TimerHeap {
  import opened Basics
  import opened Deadlines
  import opened HeapOrder

  /** Every added timer is either an entry or has been freed, and only once. */
  predicate Owns(added: seq<UtilTimer>, freed: seq<UtilTimer>, entries: seq<UtilTimer>) {
    Distinct(added) && multiset(added) == multiset(freed) + multiset(entries)
  }

  lemma {:induction false} DistinctCounts<T>(s: seq<T>, x: T)
    requires Distinct(s)
    ensures multiset(s)[x] <= 1
  {
    if |s| > 0 {
      var n := |s| - 1;
      assert s == s[..n] + [s[n]];
      DistinctCounts(s[..n], x);
      assert s[n] !in s[..n];
    }
  }

  lemma OnceDistinct<T>(s: seq<T>)
    requires forall x :: multiset(s)[x] <= 1
    ensures Distinct(s)
  {
    forall i, j | 0 <= i < j < |s| ensures s[i] != s[j] {
      assert s == s[..j] + s[j..] && s[i] in s[..j] && s[j] in s[j..];
      assert multiset(s) == multiset(s[..j]) + multiset(s[j..]);
      assert s[i] == s[j] ==> multiset(s)[s[i]] >= 2;
    }
  }

  lemma OwnsAdd(added: seq<UtilTimer>, freed: seq<UtilTimer>, entries: seq<UtilTimer>, t: UtilTimer)
    requires Owns(added, freed, entries) && t !in added
    ensures Owns(added + [t], freed, entries + [t])
  {
  }

  lemma OwnsPerm(added: seq<UtilTimer>, freed: seq<UtilTimer>, a: seq<UtilTimer>, b: seq<UtilTimer>)
    requires Owns(added, freed, a) && Perm(b, a)
    ensures Owns(added, freed, b)
  {
  }

  lemma OwnsPop(added: seq<UtilTimer>, freed: seq<UtilTimer>, entries: seq<UtilTimer>)
    requires Owns(added, freed, entries) && |entries| > 1
    ensures Owns(added, freed + [entries[0]], LastToRoot(entries))
  {
    hide LastToRoot;
    RootRemoved(entries);
  }

  lemma OwnsPopLast(added: seq<UtilTimer>, freed: seq<UtilTimer>, entries: seq<UtilTimer>)
    requires Owns(added, freed, entries) && |entries| == 1
    ensures Owns(added, freed + [entries[0]], [])
  {
    assert entries == [entries[0]];
  }

  lemma OwnsSize(added: seq<UtilTimer>, freed: seq<UtilTimer>, entries: seq<UtilTimer>)
    requires Owns(added, freed, entries)
    ensures |added| == |freed| + |entries|
  {
    assert |multiset(added)| == |multiset(freed)| + |multiset(entries)|;
  }

  /** An entry has not been freed, and no other entry is the same timer. */
  lemma OwnedOnce(added: seq<UtilTimer>, freed: seq<UtilTimer>, entries: seq<UtilTimer>)
    requires Owns(added, freed, entries)
    ensures Distinct(entries) && Distinct(freed) && forall t :: !(t in entries && t in freed)
    ensures forall t :: t in added <==> t in freed || t in entries
  {
    forall t ensures multiset(entries)[t] <= 1 && multiset(freed)[t] <= 1 && !(t in entries && t in freed) {
      DistinctCounts(added, t);
      assert multiset(added)[t] == multiset(freed)[t] + multiset(entries)[t];
      assert t in entries ==> t in multiset(entries);
      assert t in freed ==> t in multiset(freed);
    }
    OnceDistinct(entries);
    OnceDistinct(freed);
    forall t ensures t in added <==> t in freed || t in entries {
      assert t in added <==> t in multiset(added);
      assert t in freed <==> t in multiset(freed);
      assert t in entries <==> t in multiset(entries);
    }
  }

  lemma OwnsAll(added: seq<UtilTimer>, freed: seq<UtilTimer>, entries: seq<UtilTimer>)
    requires Owns(added, freed, entries)
    ensures Distinct(freed + entries) && multiset(freed + entries) == multiset(added)
  {
    forall t ensures multiset(freed + entries)[t] <= 1 {
      DistinctCounts(added, t);
    }
    OnceDistinct(freed + entries);
  }

  /** The entries in some order, with `t` as one more. */
  predicate Extends(after: seq<UtilTimer>, before: seq<UtilTimer>, t: UtilTimer) {
    multiset(after) == multiset(before) + multiset{t}
  }

  lemma PermExtends(after: seq<UtilTimer>, before: seq<UtilTimer>, t: UtilTimer)
    requires Perm(after, before + [t])
    ensures Extends(after, before, t) && |after| == |before| + 1
  {
  }

  lemma PopExtends(after: seq<UtilTimer>, before: seq<UtilTimer>)
    requires |before| > 1 && Perm(after, LastToRoot(before))
    ensures Extends(before, after, before[0]) && |before| == |after| + 1
  {
    hide LastToRoot;
    RootRemoved(before);
  }

  lemma ExtendsMembers(after: seq<UtilTimer>, before: seq<UtilTimer>, t: UtilTimer)
    requires Extends(after, before, t)
    ensures forall x :: x in after <==> x in before || x == t
  {
    forall x ensures x in after <==> x in before || x == t {
      assert x in after <==> x in multiset(after);
      assert x in before <==> x in multiset(before);
    }
  }

  /** The work a sift may do: doubling the move count never passes the size. */
  lemma HalfWay(moves: nat, hole: nat, parent: nat, n: nat)
    requires Pow2(moves) * (hole + 1) <= n && hole >= 2 * parent + 1
    ensures Pow2(moves + 1) * (parent + 1) <= n
  {
    assert Pow2(moves + 1) * (parent + 1) == Pow2(moves) * (2 * (parent + 1));
    assert Pow2(moves) * (2 * (parent + 1)) <= Pow2(moves) * (hole + 1);
  }

  lemma MovesBounded(moves: nat, hole: nat, n: nat)
    requires Pow2(moves) * (hole + 1) <= n
    ensures Pow2(moves) <= n
  {
    assert Pow2(moves) <= Pow2(moves) * (hole + 1);
  }

  lemma PowZero()
    ensures Pow2(0) == 1
  {
  }

  lemma PermSelf<T>(s: seq<T>)
    ensures Perm(s, s)
  {
  }

  lemma PermSwap<T>(s: seq<T>, b: seq<T>, i: nat, j: nat)
    requires i < |s| && j < |s| && Perm(s, b)
    ensures Perm(Swap(s, i, j), b)
  {
    hide Swap;
    SwapPerm(s, i, j);
  }

  lemma PowNext(moves: nat, hole: nat)
    requires Pow2(moves) <= hole + 1
    ensures Pow2(moves + 1) <= hole * 2 + 2
  {
  }

  lemma DownInside(s: seq<UtilTimer>, hole: nat)
    requires OrderedDown(s, hole)
    ensures hole < |s|
  {
  }

  lemma NoneOrdered()
    ensures Ordered([])
  {
  }

  lemma LastExtends(before: seq<UtilTimer>)
    requires |before| == 1
    ensures Extends(before, [], before[0])
  {
    assert before == [before[0]];
  }

  lemma ParentIs(i: nat)
    ensures Parent(i) == if i == 0 then 0 else (i - 1) / 2
  {
  }

  lemma RootEarliest(s: seq<UtilTimer>)
    requires Ordered(s) && |s| > 0
    ensures forall t | t in s :: s[0].expire <= t.expire
  {
    forall t | t in s ensures s[0].expire <= t.expire {
      var i :| 0 <= i < |s| && s[i] == t;
      RootFirst(s, i);
    }
  }

  /** The callbacks a tick at time `now` has called, when of the live timers `was` those
      in `live` remain, and of the entries those in `entries`. */
  predicate Struck(kicked: seq<ClientData>, was: map<ClientData, UtilTimer>, live: map<ClientData, UtilTimer>,
                   entries: seq<UtilTimer>, now: int)
  {
    && Distinct(kicked)
    && (forall c | c in kicked :: c in was && was[c].expire <= now)
    && live == was - (set c | c in kicked)
    && (forall i, j | 0 <= i < j < |kicked| :: was[kicked[i]].expire <= was[kicked[j]].expire)
    && (forall c, t | c in kicked && t in entries :: was[c].expire <= t.expire)
  }

  lemma StruckNone(live: map<ClientData, UtilTimer>, entries: seq<UtilTimer>, now: int)
    ensures Struck([], live, live, entries, now)
  {
    assert live == live - {};
  }

  /** A dead or live root leaves the heap; a live one is called. */
  lemma StruckNext(kicked: seq<ClientData>, was: map<ClientData, UtilTimer>, live: map<ClientData, UtilTimer>,
                   entries: seq<UtilTimer>, after: seq<UtilTimer>, root: UtilTimer, now: int)
    requires Struck(kicked, was, live, entries, now) && root in entries && root.expire <= now
    requires forall t | t in after :: t in entries && root.expire <= t.expire
    ensures Struck(kicked, was, live, after, now)
    ensures root.userData in live && live[root.userData] == root ==>
              Struck(kicked + [root.userData], was, live - {root.userData}, after, now)
  {
    if root.userData in live && live[root.userData] == root {
      var c := root.userData;
      var next := kicked + [c];
      assert forall x :: x in next <==> x in kicked || x == c;
      assert live - {c} == was - (set x | x in next);
    }
  }

  /** The timers that a tick at time `now` has fired, and the clients it has called with
      them, when of the entries `was` those in `entries` remain. */
  ghost predicate Fired(fired: seq<UtilTimer>, kicked: seq<ClientData>, was: seq<UtilTimer>,
                        entries: seq<UtilTimer>, now: int)
    reads was
  {
    && Distinct(fired) && |kicked| == |fired|
    && (forall i | 0 <= i < |fired| :: kicked[i] == fired[i].userData)
    && (forall t | t in fired :: t in was && t.cbFunc && t.expire <= now && t !in entries)
    && (forall t | t in was :: t in entries || (t.expire <= now && (t.cbFunc ==> t in fired)))
    && (forall t | t in entries :: t in was)
    && (forall i, j | 0 <= i < j < |fired| :: fired[i].expire <= fired[j].expire)
    && (forall f, t | f in fired && t in entries :: f.expire <= t.expire)
  }

  lemma FiredNone(entries: seq<UtilTimer>, now: int)
    ensures Fired([], [], entries, entries, now)
  {
  }

  lemma FiredNext(fired: seq<UtilTimer>, kicked: seq<ClientData>, was: seq<UtilTimer>,
                  entries: seq<UtilTimer>, after: seq<UtilTimer>, root: UtilTimer, now: int)
    requires Fired(fired, kicked, was, entries, now) && root in entries && root !in after && root.expire <= now
    requires forall t :: t in entries <==> t in after || t == root
    requires forall t | t in after :: root.expire <= t.expire
    ensures root.cbFunc ==> Fired(fired + [root], kicked + [root.userData], was, after, now)
    ensures !root.cbFunc ==> Fired(fired, kicked, was, after, now)
  {
    var next := fired + [root];
    assert forall t :: t in next <==> t in fired || t == root;
  }

  lemma FiredAll(fired: seq<UtilTimer>, kicked: seq<ClientData>, was: seq<UtilTimer>, entries: seq<UtilTimer>, now: int)
    requires Fired(fired, kicked, was, entries, now) && forall t | t in entries :: t.expire > now
    ensures forall t :: t in entries <==> t in was && t.expire > now
    ensures forall t :: t in fired <==> t in was && t.cbFunc && t.expire <= now
  {
  }

  function Expiries(live: map<ClientData, UtilTimer>): map<ClientData, int> {
    map c | c in live :: live[c].expire
  }

  /** When only later entries remain, those called are those that were due. */
  lemma StruckAll(kicked: seq<ClientData>, was: map<ClientData, UtilTimer>, live: map<ClientData, UtilTimer>,
                  entries: seq<UtilTimer>, now: int)
    requires Struck(kicked, was, live, entries, now)
    requires forall c | c in live :: live[c].expire > now
    ensures (set c | c in kicked) == Due(Expiries(was), now)
    ensures Expiries(live) == After(Expiries(was), Event.Tick(now))
  {
    forall c | c in was ensures c in kicked <==> was[c].expire <= now {
      assert c in live || c in kicked;
    }
  }

  class TimeHeap {
    var arr: array<UtilTimer?>
    var capacity: nat
    var curSize: nat

    /** The entries, as a sequence. */
    ghost var entries: seq<UtilTimer>
    /** Every timer ever added, and every timer deleted so far, in order. */
    ghost var added: seq<UtilTimer>
    ghost var freed: seq<UtilTimer>
    /** The initial capacity, and how many slots all resizes have copied. */
    ghost var first: nat
    ghost var copied: nat
    /** The timers whose callback is still set, by client. */
    ghost var live: map<ClientData, UtilTimer>

    /** The array holds `s`, except perhaps at `hole`. */
    ghost predicate Holds(s: seq<UtilTimer>, hole: nat)
      reads this`arr, this`curSize, arr
    {
      && curSize == |s| <= arr.Length
      && (forall i | 0 <= i < |s| && i != hole :: arr[i] == s[i])
    }

    /** The array holds the entries; an empty heap has a NULL root. */
    ghost predicate Stored()
      reads this`arr, this`curSize, this`capacity, this`entries, arr
    {
      && 1 <= capacity == arr.Length && Holds(entries, |entries|)
      && (curSize == 0 ==> arr[0] == null)
    }

    /** Exactly the live timers have a callback, and a client points at its own one. */
    ghost predicate Linked()
      reads this`entries, this`live, entries, live.Keys
    {
      && (forall c | c in live :: live[c] in entries && live[c].cbFunc && live[c].userData == c && c.timer == live[c])
      && (forall t | t in entries && t.cbFunc :: t.userData in live && live[t.userData] == t)
    }

    /** When each client is due to be disconnected. */
    ghost function Deadlines(): map<ClientData, int>
      reads this`live
    {
      Expiries(live)
    }

    /** Resizing has copied fewer than twice as many slots as timers were added. */
    ghost predicate Amortized()
      reads this
    {
      && 1 <= first <= capacity && copied == capacity - first
      && (copied > 0 ==> capacity <= 2 * (|added| - 1))
    }

    ghost predicate Valid()
      reads this, arr
    {
      Stored() && Ordered(entries) && Owns(added, freed, entries) && Amortized()
    }

    constructor (capacity: nat)
      requires capacity >= 1
      ensures Valid() && fresh(arr) && entries == [] && added == [] && freed == []
      ensures Linked() && Deadlines() == map[]
      ensures this.capacity == first == capacity && copied == 0
    {
      this.capacity, curSize := capacity, 0;
      arr := new UtilTimer?[capacity](_ => null);
      entries, added, freed, live, copied, first := [], [], [], map[], 0, capacity;
    }

    /** Over any run, resizing copies fewer than two slots per timer added. */
    lemma FewCopies()
      requires Valid()
      ensures copied == 0 || copied < 2 * |added|
    {
    }

    /** `resize`: doubles the capacity, keeps the entries. */
    method Resize()
      requires Stored() && curSize == capacity
      modifies this`arr, this`capacity, this`copied
      ensures Stored() && fresh(arr) && capacity == 2 * old(capacity)
      ensures copied == old(copied) + curSize
    {
      var temp := new UtilTimer?[2 * capacity](_ => null);
      capacity := 2 * capacity;
      var i := 0;
      while i < curSize
        invariant 0 <= i <= curSize
        invariant forall k | 0 <= k < i :: temp[k] == entries[k]
        modifies temp
      {
        temp[i] := arr[i];
        i := i + 1;
      }
      copied := copied + curSize;
      arr := temp;
    }

    /** The loop of `add_timer`: entries move down into the hole until `timer` fits.
        `before` is the heap with `timer` in the hole. */
    method SiftUp(start: nat, timer: UtilTimer, ghost before: seq<UtilTimer>)
      returns (ghost s: seq<UtilTimer>, ghost moves: nat)
      requires Holds(before, start) && start < |before| && OrderedUp(before, start) && before[start] == timer
      modifies arr
      ensures Holds(s, |s|) && Ordered(s) && Perm(s, before)
      ensures Pow2(moves) <= start + 1
    {
      hide OrderedUp, Ordered, Perm, Swap, Pow2, Parent;
      s, moves := before, 0;
      assert Pow2(0) == 1 by { PowZero(); }
      assert Perm(s, before) by { PermSelf(s); }
      var hole := start;
      var parent := 0;
      while hole > 0
        invariant 0 <= hole <= start < |s| && s[hole] == timer && OrderedUp(s, hole)
        invariant Holds(s, hole) && Perm(s, before)
        invariant hole == 0 || Pow2(moves) * (hole + 1) <= start + 1
        invariant Pow2(moves) <= start + 1
        decreases hole
        modifies arr
      {
        parent := (hole - 1) / 2;
        ParentIs(hole);
        if arr[parent].expire <= timer.expire {
          break;
        }
        arr[hole] := arr[parent];
        SwapUp(s, hole);
        HalfWay(moves, hole, parent, start + 1);
        MovesBounded(moves + 1, parent, start + 1);
        PermSwap(s, before, hole, parent);
        s, moves, hole := Swap(s, hole, parent), moves + 1, parent;
      }
      ParentIs(hole);
      UpDone(s, hole);
      arr[hole] := timer;
    }

    /** `add_timer` once there is room. */
    method Insert(timer: UtilTimer) returns (ghost moves: nat)
      requires Stored() && curSize < capacity && Ordered(entries)
      modifies this`curSize, this`entries, arr
      ensures Stored() && Ordered(entries) && Perm(entries, old(entries) + [timer])
      ensures Pow2(moves) <= |entries|
    {
      hide Ordered, OrderedUp, Perm, Pow2;
      var hole := curSize;
      curSize := curSize + 1;
      ghost var before := entries;
      Appended(before, timer);
      entries, moves := SiftUp(hole, timer, before + [timer]);
    }

    /** `add_timer`: the timers become one more, and the loop moves at most log2 of
        the new size entries. */
    method AddTimer(timer: UtilTimer?) returns (ghost moves: nat)
      requires Valid() && timer !in added
      modifies this`arr, this`capacity, this`curSize, this`copied, this`entries, this`added, arr
      ensures Valid() && (arr == old(arr) || fresh(arr)) && first == old(first) && freed == old(freed)
      ensures timer == null ==> entries == old(entries) && added == old(added) && moves == 0
      ensures timer != null ==> Extends(entries, old(entries), timer) && added == old(added) + [timer]
      ensures timer != null ==> |entries| == |old(entries)| + 1 && Pow2(moves) <= |entries|
    {
      hide Ordered, Perm, Pow2, Extends, Owns, Holds;
      OwnsSize(added, freed, entries);
      moves := 0;
      if timer == null {
        return;
      }
      ghost var before := entries;
      if curSize >= capacity {
        SizeStored();
        Resize();
      }
      moves := Insert(timer);
      PermExtends(entries, before, timer);
      OwnsAdd(added, freed, before, timer);
      OwnsPerm(added + [timer], freed, before + [timer], entries);
      added := added + [timer];
    }

    /** The loop of `pop_timer`: the earlier child moves up into the hole until the
        entry first put at the root fits. */
    method SiftDown(ghost before: seq<UtilTimer>) returns (ghost s: seq<UtilTimer>, ghost moves: nat)
      requires Holds(before, |before|) && OrderedDown(before, 0)
      modifies arr
      ensures Holds(s, |s|) && Ordered(s) && Perm(s, before)
      ensures Pow2(moves) <= |s|
    {
      hide OrderedDown, Ordered, Perm, Swap, Pow2, Parent;
      s, moves := before, 0;
      PowZero();
      PermSelf(s);
      DownInside(before, 0);
      var hole := 0;
      var child := 0;
      var temp := arr[0];
      while hole * 2 + 1 < curSize
        invariant 0 <= hole < |s| && s[hole] == temp && OrderedDown(s, hole)
        invariant Holds(s, hole) && Perm(s, before)
        invariant Pow2(moves) <= hole + 1
        decreases curSize - hole
        modifies arr
      {
        child := hole * 2 + 1;
        if child < curSize - 1 && arr[child + 1].expire < arr[child].expire {
          child := child + 1;
        }
        ParentIs(child);
        assert s[child].expire <= s[hole * 2 + 1].expire;
        assert hole * 2 + 2 < |s| ==> s[child].expire <= s[hole * 2 + 2].expire;
        if arr[child].expire < temp.expire {
          arr[hole] := arr[child];
        } else {
          break;
        }
        SwapDown(s, hole, child);
        PermSwap(s, before, hole, child);
        PowNext(moves, hole);
        s, moves, hole := Swap(s, hole, child), moves + 1, child;
      }
      DownDone(s, hole);
      arr[hole] := temp;
    }

    /** `pop_timer`: frees the root and closes the gap with the last entry. */
    method PopTimer() returns (ghost moves: nat)
      requires Valid()
      modifies this`curSize, this`entries, this`freed, arr
      ensures Valid()
      ensures old(entries) == [] ==> entries == [] && freed == old(freed)
      ensures old(entries) != [] ==>
                && freed == old(freed) + [old(entries)[0]]
                && Extends(old(entries), entries, old(entries)[0]) && |entries| == |old(entries)| - 1
      ensures Pow2(moves) <= |entries| + 1
    {
      hide Ordered, OrderedDown, Perm, Pow2, Extends, Owns, LastToRoot;
      PowZero();
      moves := 0;
      if curSize == 0 {
        return;
      }
      ghost var before, was := entries, freed;
      if arr[0] != null {
        freed := freed + [arr[0]];
        arr[0] := null;
      }
      curSize := curSize - 1;
      arr[0] := arr[curSize];
      if curSize == 0 {
        OwnsPopLast(added, was, before);
        LastExtends(before);
        entries := [];
        NoneOrdered();
      } else {
        RootReplaced(before);
        ghost var s;
        s, moves := SiftDown(LastToRoot(before));
        PopExtends(s, before);
        OwnsPop(added, was, before);
        OwnsPerm(added, freed, LastToRoot(before), s);
        entries := s;
      }
    }

    /** `del_timer`: the timer stays in the array but will not fire. */
    method DelTimer(timer: UtilTimer?)
      requires Valid() && Linked() && (timer != null ==> timer in entries)
      modifies this`live, timer
      ensures Valid() && Linked()
      ensures timer != null && old(timer.cbFunc) ==> Deadlines() == old(Deadlines()) - {timer.userData}
      ensures timer == null || !old(timer.cbFunc) ==> Deadlines() == old(Deadlines())
    {
      hide Ordered, Owns, Holds, Stored;
      if timer == null {
        return;
      }
      if timer.cbFunc {
        live := live - {timer.userData};
      }
      timer.cbFunc := false;
    }

    /** A client's timer is set and enters the heap. */
    method Enter(timer: UtilTimer)
      requires Valid() && timer !in added && timer !in entries
      modifies this, arr
      ensures Valid() && (arr == old(arr) || fresh(arr)) && first == old(first)
      ensures old(Linked()) && timer.userData !in old(live) && timer.userData.timer == timer ==> Linked()
      ensures added == old(added) + [timer] && freed == old(freed)
      ensures Extends(entries, old(entries), timer)
      ensures live == if timer.cbFunc then old(live)[timer.userData := timer] else old(live)
    {
      hide Ordered, Owns, Holds, Stored, Extends;
      ghost var before := entries;
      ghost var moves := AddTimer(timer);
      ExtendsMembers(entries, before, timer);
      if timer.cbFunc {
        live := live[timer.userData := timer];
      }
    }

    /** `adjust_timer`, at time `now`: the old timer stays as a dead entry and a new one
        takes over its callback, live or not. */
    method AdjustTimer(timer: UtilTimer?, now: int)
      requires Valid() && Linked() && (timer != null ==> timer in entries && timer.userData.timer == timer)
      modifies this, arr, timer, if timer == null then {} else {timer.userData}
      ensures Valid() && Linked() && (arr == old(arr) || fresh(arr)) && first == old(first) && freed == old(freed)
      ensures timer != null && old(timer.cbFunc) ==>
                Deadlines() == old(Deadlines())[timer.userData := now + LIFETIME]
      ensures timer == null || !old(timer.cbFunc) ==> Deadlines() == old(Deadlines())
      ensures timer != null ==>
                && !timer.cbFunc && timer.userData.timer != null && fresh(timer.userData.timer)
                && timer.userData.timer.expire == now + LIFETIME && timer.userData.timer.userData == timer.userData
                && added == old(added) + [timer.userData.timer]
                && Extends(entries, old(entries), timer.userData.timer)
      ensures timer == null ==> entries == old(entries) && added == old(added)
    {
      hide Ordered, Owns, Holds, Stored, Extends;
      if timer == null {
        return;
      }
      var cbFunc := timer.cbFunc;
      var userData := timer.userData;
      if cbFunc {
        live := live - {userData};
      }
      timer.cbFunc := false;
      var newTimer := new UtilTimer(now + 3 * 5, userData, cbFunc);
      userData.timer := newTimer;
      Enter(newTimer);
    }

    /** One turn of the loop of `tick`: the root is due; it is called if its callback is
        set, and freed. */
    method Strike(kicked: seq<ClientData>, ghost fired: seq<UtilTimer>, ghost start: seq<UtilTimer>,
                  ghost was: map<ClientData, UtilTimer>, now: int)
      returns (called: seq<ClientData>, ghost struck: seq<UtilTimer>)
      requires Valid() && |entries| > 0 && entries[0].expire <= now && Fired(fired, kicked, start, entries, now)
      modifies this`curSize, this`entries, this`freed, this`live, arr
      ensures Valid() && |entries| == |old(entries)| - 1 && Fired(struck, called, start, entries, now)
      ensures old(Linked()) && Struck(kicked, was, old(live), old(entries), now) ==>
                Linked() && Struck(called, was, live, entries, now)
    {
      hide Ordered, Owns, Extends, Struck, Holds, Fired;
      ghost var before, known, root, linked := entries, live, entries[0], Linked();
      RootEarliest(before);
      RootStored();
      called, struck := kicked, fired;
      if arr[0].cbFunc {
        called := kicked + [arr[0].userData];
        struck := fired + [arr[0]];
        live := live - {arr[0].userData};
      }
      ghost var moves := PopTimer();
      ExtendsMembers(before, entries, root);
      OwnedOnce(added, freed, entries);
      assert root in freed && root !in entries;
      FiredNext(fired, kicked, start, before, entries, root, now);
      if linked && Struck(kicked, was, known, before, now) {
        StruckNext(kicked, was, known, before, entries, root, now);
      }
    }

    lemma RootStored()
      requires Stored() && |entries| > 0
      ensures arr[0] == entries[0]
    {
    }

    /** `tick` at time `now`: calls the callback of every timer that is due and has one,
        in order of deadline, and deletes every entry that is due.  If the timers with a
        callback are those of the map, one a client, it strikes who is due in the map. */
    method Tick(now: int) returns (kicked: seq<ClientData>, ghost fired: seq<UtilTimer>)
      requires Valid()
      modifies this`curSize, this`entries, this`freed, this`live, arr
      ensures Valid() && Fired(fired, kicked, old(entries), entries, now)
      ensures forall t :: t in entries <==> t in old(entries) && t.expire > now
      ensures forall t :: t in fired <==> t in old(entries) && t.cbFunc && t.expire <= now
      ensures old(Linked()) ==> Linked() && Struck(kicked, old(live), live, entries, now)
      ensures old(Linked()) ==> (set c | c in kicked) == Due(old(Deadlines()), now)
      ensures old(Linked()) ==> Deadlines() == After(old(Deadlines()), Event.Tick(now))
    {
      hide Ordered, Owns, Struck, Expiries, Holds, After, Fired;
      kicked, fired := [], [];
      StruckNone(live, entries, now);
      FiredNone(entries, now);
      SizeStored();
      var tmp := arr[0];
      while curSize > 0
        invariant Valid() && tmp == arr[0] && curSize == |entries|
        invariant Fired(fired, kicked, old(entries), entries, now)
        invariant old(Linked()) ==> Linked() && Struck(kicked, old(live), live, entries, now)
        decreases curSize
        modifies this`curSize, this`entries, this`freed, this`live, arr
      {
        RootStored();
        if tmp == null || tmp.expire > now {
          break;
        }
        kicked, fired := Strike(kicked, fired, old(entries), old(live), now);
        SizeStored();
        tmp := arr[0];
      }
      if |entries| > 0 {
        RootEarliest(entries);
      }
      FiredAll(fired, kicked, old(entries), entries, now);
      if old(Linked()) {
        StruckAll(kicked, old(live), live, entries, now);
      }
    }

    lemma SizeStored()
      requires Stored()
      ensures curSize == |entries| <= capacity
    {
    }

    /** The destructor: with it every timer ever added has been freed, once. */
    method Destroy()
      requires Valid()
      modifies this`freed
      ensures Distinct(freed) && multiset(freed) == multiset(added)
      ensures freed == old(freed) + entries
    {
      hide Ordered, Owns;
      var i := 0;
      while i < curSize
        invariant 0 <= i <= curSize && freed == old(freed) + entries[..i]
        modifies this`freed
      {
        freed := freed + [arr[i]];
        i := i + 1;
      }
      assert entries[..i] == entries;
      OwnsAll(added, old(freed), entries);
    }
  }

  /** What the server does for a new connection, at time `now`. */
  method RegisterClient(heap: TimeHeap, c: ClientData, now: int)
    requires heap.Valid()
    modifies heap, heap.arr, c
    ensures heap.Valid() && (heap.arr == old(heap.arr) || fresh(heap.arr))
    ensures old(heap.Linked()) && c !in old(heap.live) ==>
              heap.Linked() && heap.Deadlines() == old(heap.Deadlines())[c := now + LIFETIME]
    ensures c.timer != null && fresh(c.timer) && c.timer.userData == c && c.timer.expire == now + LIFETIME
    ensures c.timer.cbFunc && Extends(heap.entries, old(heap.entries), c.timer)
  {
    hide Ordered, Owns, Extends;
    var timer := new UtilTimer(now + LIFETIME, c, true);
    c.timer := timer;
    heap.Enter(timer);
  }

  /** A worker has closed the connection of `c`, whose timer stays live; its number is
      accepted again at time `now`, and a tick comes at time `later`.  The new connection
      is disconnected as soon as either timer is due.  If the old one was, its own stays
      in the heap and will strike again; if both are, it is disconnected twice. */
  method ReuseStruck(heap: TimeHeap, c: ClientData, now: int, later: int) returns (kicked: seq<ClientData>)
    requires heap.Valid() && heap.Linked() && c in heap.live
    modifies heap, heap.arr, c
    ensures heap.Valid()
    ensures c in kicked <==> old(heap.live[c].expire) <= later || now + LIFETIME <= later
    ensures c.timer != null && c.timer.cbFunc && c.timer.userData == c && c.timer.expire == now + LIFETIME
    ensures c.timer in heap.entries <==> later < now + LIFETIME
    ensures old(heap.live[c].expire) <= later && now + LIFETIME <= later ==>
              exists i, j :: 0 <= i < j < |kicked| && kicked[i] == kicked[j] == c
  {
    hide Ordered, Owns, Extends, TimeHeap.Stored, TimeHeap.Amortized;
    ghost var first, before := heap.live[c], heap.entries;
    RegisterClient(heap, c, now);
    ExtendsMembers(heap.entries, before, c.timer);
    ghost var fired;
    ghost var both := heap.entries;
    kicked, fired := heap.Tick(later);
    if first in fired && c.timer in fired {
      var i :| 0 <= i < |fired| && fired[i] == first;
      var j :| 0 <= j < |fired| && fired[j] == c.timer;
      assert kicked[i] == kicked[j] == c && i != j;
    }
  }

  /** What one event does to the entries: a tick leaves only later ones, and the only
      new one carries the deadline the event sets. */
  predicate Aged(after: seq<UtilTimer>, before: seq<UtilTimer>, e: Event<ClientData>) {
    forall t | t in after ::
      (t in before && (e.Tick? ==> e.now < t.expire)) || (Renews(e, t.userData) && t.expire == e.now + LIFETIME)
  }

  lemma AgedByOne(after: seq<UtilTimer>, before: seq<UtilTimer>, t: UtilTimer, e: Event<ClientData>)
    requires Extends(after, before, t) && Renews(e, t.userData) && t.expire == e.now + LIFETIME
    ensures Aged(after, before, e)
  {
    ExtendsMembers(after, before, t);
  }

  lemma AgedSame(after: seq<UtilTimer>, before: seq<UtilTimer>, e: Event<ClientData>)
    requires forall t | t in after :: t in before && (e.Tick? ==> e.now < t.expire)
    ensures Aged(after, before, e)
  {
  }

  /** Every entry, dead or live, is owed to an event that set its deadline, which no tick
      has reached since. */
  ghost predicate AllPending(entries: seq<UtilTimer>, es: seq<Event<ClientData>>, n: nat)
    requires n <= |es|
  {
    forall t | t in entries :: Pending(es, n, t.userData, t.expire)
  }

  lemma AllPendingNext(after: seq<UtilTimer>, before: seq<UtilTimer>, es: seq<Event<ClientData>>, n: nat)
    requires n < |es| && AllPending(before, es, n) && Aged(after, before, es[n])
    ensures AllPending(after, es, n + 1)
  {
    hide Pending, Renews;
    forall t | t in after ensures Pending(es, n + 1, t.userData, t.expire) {
      PendingNext(es, n, t.userData, t.expire);
    }
  }

  /** One event, as the server passes it to the heap. */
  method Obey(heap: TimeHeap, clients: set<ClientData>, e: Event<ClientData>) returns (kicked: seq<ClientData>)
    requires heap.Valid() && heap.Linked() && Fits(heap.Deadlines(), e) && (!e.Tick? ==> e.client in clients)
    requires forall t | t in heap.entries :: t.userData in clients
    modifies heap, heap.arr, (set t | t in heap.entries), clients
    ensures heap.Valid() && heap.Linked() && (heap.arr == old(heap.arr) || fresh(heap.arr))
    ensures heap.Deadlines() == After(old(heap.Deadlines()), e)
    ensures forall t | t in heap.entries :: (t in old(heap.entries) || fresh(t)) && t.userData in clients
    ensures e.Tick? ==> (set c | c in kicked) == Due(old(heap.Deadlines()), e.now)
    ensures Aged(heap.entries, old(heap.entries), e)
  {
    hide Ordered, Owns, Extends, TimeHeap.Stored, TimeHeap.Amortized, Aged;
    kicked := [];
    match e
    case Arrive(c, now) =>
      RegisterClient(heap, c, now);
      ExtendsMembers(heap.entries, old(heap.entries), c.timer);
      AgedByOne(heap.entries, old(heap.entries), c.timer, e);
    case Touch(c, now) =>
      heap.AdjustTimer(c.timer, now);
      ExtendsMembers(heap.entries, old(heap.entries), c.timer);
      AgedByOne(heap.entries, old(heap.entries), c.timer, e);
    case Drop(c, _) =>
      heap.DelTimer(c.timer);
      AgedSame(heap.entries, old(heap.entries), e);
    case Tick(now) =>
      ghost var fired;
      kicked, fired := heap.Tick(now);
      AgedSame(heap.entries, old(heap.entries), e);
  }

  lemma NonePending(es: seq<Event<ClientData>>)
    ensures AllPending([], es, 0)
  {
  }

  /** A whole legal run on a fresh heap strikes exactly those the map says are due, and
      leaves no entry, dead or live, whose deadline a tick of the run has reached. */
  method Replay(clients: set<ClientData>, es: seq<Event<ClientData>>, capacity: nat)
    returns (heap: TimeHeap, struck: seq<seq<ClientData>>)
    requires capacity >= 1 && Legal(es)
    requires forall e | e in es && !e.Tick? :: e.client in clients
    modifies clients
    ensures |struck| == |es| && heap.Valid() && heap.Linked() && heap.Deadlines() == Upto(es, |es|)
    ensures forall i | 0 <= i < |es| && es[i].Tick? :: (set c | c in struck[i]) == Due(Upto(es, i), es[i].now)
    ensures AllPending(heap.entries, es, |es|)
  {
    hide Ordered, Owns, Extends, After, Due, Aged, AllPending, TimeHeap.Stored, TimeHeap.Amortized;
    heap := new TimeHeap(capacity);
    struck := [];
    NonePending(es);
    var i := 0;
    while i < |es|
      invariant 0 <= i <= |es| && |struck| == i && AllPending(heap.entries, es, i)
      invariant fresh(heap) && fresh(heap.arr) && heap.Valid() && heap.Linked() && heap.Deadlines() == Upto(es, i)
      invariant forall t | t in heap.entries :: fresh(t) && t.userData in clients
      invariant forall k | 0 <= k < i && es[k].Tick? :: (set c | c in struck[k]) == Due(Upto(es, k), es[k].now)
    {
      assert FitsAt(es, i);
      ghost var before := heap.entries;
      var kicked := Obey(heap, clients, es[i]);
      AllPendingNext(heap.entries, before, es, i);
      struck, i := struck + [kicked], i + 1;
    }
  }
}
