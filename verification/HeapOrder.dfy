/** Timers, and what it means for a sequence of timers to be a binary min-heap. */
module HeapOrder {
  /** `expire` and `userData` are set before a timer enters the heap and never again;
      `cbFunc` says whether the callback pointer is set: there is only one callback. */
  class UtilTimer {
    const expire: int
    const userData: ClientData
    var cbFunc: bool

    constructor (expire: int, userData: ClientData, cbFunc: bool)
      ensures this.expire == expire && this.userData == userData && this.cbFunc == cbFunc
    {
      this.expire, this.userData, this.cbFunc := expire, userData, cbFunc;
    }
  }

  class ClientData {
    const sockfd: int
    var timer: UtilTimer?

    constructor (sockfd: int)
      ensures this.sockfd == sockfd && timer == null
    {
      this.sockfd, timer := sockfd, null;
    }
  }

  function Parent(i: nat): (p: nat)
    ensures i > 0 ==> p < i
  {
    if i == 0 then 0 else (i - 1) / 2
  }

  function Pow2(n: nat): (r: nat)
    ensures r >= 1
  {
    if n == 0 then 1 else 2 * Pow2(n - 1)
  }

  predicate Edge(s: seq<UtilTimer>, i: nat)
    requires 1 <= i < |s|
  {
    s[Parent(i)].expire <= s[i].expire
  }

  predicate Skip(s: seq<UtilTimer>, i: nat)
    requires 1 <= i < |s|
  {
    s[Parent(Parent(i))].expire <= s[i].expire
  }

  /** No entry expires before its parent. */
  predicate Ordered(s: seq<UtilTimer>) {
    forall i {:trigger Edge(s, i)} | 1 <= i < |s| :: Edge(s, i)
  }

  /** Ordered, except that the entry at `hole` may expire before its parent. */
  predicate OrderedUp(s: seq<UtilTimer>, hole: nat) {
    && hole < |s|
    && (forall i {:trigger Edge(s, i)} | 1 <= i < |s| && i != hole :: Edge(s, i))
    && (forall i {:trigger Skip(s, i)} | 1 <= i < |s| && Parent(i) == hole && hole > 0 :: Skip(s, i))
  }

  /** Ordered, except that the entry at `hole` may expire after its children. */
  predicate OrderedDown(s: seq<UtilTimer>, hole: nat) {
    && hole < |s|
    && (forall i {:trigger Edge(s, i)} | 1 <= i < |s| && Parent(i) != hole :: Edge(s, i))
    && (forall i {:trigger Skip(s, i)} | 1 <= i < |s| && Parent(i) == hole && hole > 0 :: Skip(s, i))
  }

  function Swap<T>(s: seq<T>, i: nat, j: nat): (r: seq<T>)
    requires i < |s| && j < |s|
    ensures |r| == |s| && r[i] == s[j] && r[j] == s[i]
    ensures forall k {:trigger r[k]} | 0 <= k < |s| && k != i && k != j :: r[k] == s[k]
  {
    s[i := s[j]][j := s[i]]
  }

  predicate Perm<T(==)>(a: seq<T>, b: seq<T>) {
    |a| == |b| && multiset(a) == multiset(b)
  }

  lemma SwapPerm<T>(s: seq<T>, i: nat, j: nat)
    requires i < |s| && j < |s|
    ensures Perm(Swap(s, i, j), s)
  {
  }

  lemma SwapUp(s: seq<UtilTimer>, hole: nat)
    requires OrderedUp(s, hole) && hole > 0 && s[hole].expire < s[Parent(hole)].expire
    ensures OrderedUp(Swap(s, hole, Parent(hole)), Parent(hole))
  {
    hide Swap;
    var p := Parent(hole);
    var r := Swap(s, hole, p);
    forall i {:trigger Edge(r, i)} | 1 <= i < |r| && i != p ensures Edge(r, i) {
      if i != hole {
        assert Edge(s, i);
        if Parent(i) == hole {
          assert Skip(s, i);
        }
      }
    }
    forall i {:trigger Skip(r, i)} | 1 <= i < |r| && Parent(i) == p && p > 0 ensures Skip(r, i) {
      assert Edge(s, p);
      if i != hole {
        assert Edge(s, i);
      }
    }
  }

  /** When `hole` fits below its parent the heap is in order. */
  lemma UpDone(s: seq<UtilTimer>, hole: nat)
    requires OrderedUp(s, hole) && (hole == 0 || s[Parent(hole)].expire <= s[hole].expire)
    ensures Ordered(s)
  {
    forall i {:trigger Edge(s, i)} | 1 <= i < |s| ensures Edge(s, i) {
    }
  }

  /** A timer put behind an ordered heap leaves one possible fault, at the end. */
  lemma Appended(s: seq<UtilTimer>, timer: UtilTimer)
    requires Ordered(s)
    ensures OrderedUp(s + [timer], |s|)
  {
    var r := s + [timer];
    forall i {:trigger Edge(r, i)} | 1 <= i < |r| && i != |s| ensures Edge(r, i) {
      assert Edge(s, i);
    }
  }

  lemma SwapDown(s: seq<UtilTimer>, hole: nat, child: nat)
    requires OrderedDown(s, hole) && 1 <= child < |s| && Parent(child) == hole
    requires s[child].expire < s[hole].expire
    requires forall i | hole * 2 + 1 <= i <= hole * 2 + 2 && i < |s| :: s[child].expire <= s[i].expire
    ensures OrderedDown(Swap(s, hole, child), child)
  {
    hide Swap;
    var r := Swap(s, hole, child);
    forall i {:trigger Edge(r, i)} | 1 <= i < |r| && Parent(i) != child ensures Edge(r, i) {
      if i == hole {
        assert Skip(s, child);
      } else if Parent(i) == hole {
        assert hole * 2 + 1 <= i <= hole * 2 + 2;
      } else {
        assert Edge(s, i);
      }
    }
    forall i {:trigger Skip(r, i)} | 1 <= i < |r| && Parent(i) == child ensures Skip(r, i) {
      assert Edge(s, i);
    }
  }

  /** When `hole` fits above its children the heap is in order. */
  lemma DownDone(s: seq<UtilTimer>, hole: nat)
    requires OrderedDown(s, hole)
    requires forall i | hole * 2 + 1 <= i <= hole * 2 + 2 && i < |s| :: s[hole].expire <= s[i].expire
    ensures Ordered(s)
  {
    forall i {:trigger Edge(s, i)} | 1 <= i < |s| ensures Edge(s, i) {
      if Parent(i) == hole {
        assert hole * 2 + 1 <= i <= hole * 2 + 2;
      }
    }
  }

  /** The heap after its root is overwritten by its last entry. */
  function LastToRoot(s: seq<UtilTimer>): (r: seq<UtilTimer>)
    requires |s| > 1
    ensures |r| == |s| - 1 && r[0] == s[|s| - 1]
    ensures forall i {:trigger r[i]} | 1 <= i < |r| :: r[i] == s[i]
  {
    [s[|s| - 1]] + s[1..|s| - 1]
  }

  lemma RootReplaced(s: seq<UtilTimer>)
    requires |s| > 1 && Ordered(s)
    ensures OrderedDown(LastToRoot(s), 0)
  {
    hide LastToRoot;
    var r := LastToRoot(s);
    forall i {:trigger Edge(r, i)} | 1 <= i < |r| && Parent(i) != 0 ensures Edge(r, i) {
      assert Edge(s, i);
    }
  }

  lemma RootRemoved(s: seq<UtilTimer>)
    requires |s| > 1
    ensures multiset(s) == multiset(LastToRoot(s)) + multiset{s[0]}
  {
    var n := |s| - 1;
    assert s == [s[0]] + s[1..n] + [s[n]];
  }

  /** In an ordered heap nothing expires before the root. */
  lemma {:induction false} RootFirst(s: seq<UtilTimer>, i: nat)
    requires Ordered(s) && i < |s|
    ensures s[0].expire <= s[i].expire
  {
    if i > 0 {
      assert Edge(s, i);
      RootFirst(s, Parent(i));
    }
  }
}
