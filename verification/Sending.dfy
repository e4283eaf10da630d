/** The send loop of `HttpConn::write`.  It counts down from a total, but after a short
    `writev` it does not advance the iovecs: every `writev` starts with their first byte. */
module Sending {
  import opened Basics

  /** What the iovecs point at, end to end. */
  function Flat(iov: seq<string>): string {
    if iov == [] then "" else iov[0] + Flat(iov[1..])
  }

  lemma FlatOne(a: string)
    ensures Flat([a]) == a
  {
    assert [a][1..] == [];
  }

  lemma FlatTwo(a: string, b: string)
    ensures Flat([a, b]) == a + b
  {
    assert [a, b][1..] == [b];
    FlatOne(b);
  }

  function Accepted(text: string, take: nat): (n: nat)
    ensures n <= |text| && n <= take
  {
    if take < |text| then take else |text|
  }

  /** The bytes handed to the socket, and whether the loop came to its end. */
  datatype Sent = Sent(wire: string, done: bool)

  /** The loop, with `left` bytes to count down; `takes` is what the socket has room for at
      each `writev`, before it has none. */
  function Sends(text: string, left: int, takes: seq<nat>): Sent {
    if takes == [] then Sent("", false)
    else
      var n := Accepted(text, takes[0]);
      if left - n <= 0 then Sent(text[..n], true)
      else
        var r := Sends(text, left - n, takes[1..]);
        Sent(text[..n] + r.wire, r.done)
  }

  /** One call of `write`; a total of 0 sends nothing. */
  function Call(text: string, total: int, takes: seq<nat>): Sent {
    if total == 0 then Sent("", true) else Sends(text, total, takes)
  }

  /** The calls until one comes to its end; each begins anew. */
  function Session(text: string, total: int, calls: seq<seq<nat>>): Sent {
    if calls == [] then Sent("", false)
    else
      var r := Call(text, total, calls[0]);
      if r.done then r
      else
        var s := Session(text, total, calls[1..]);
        Sent(r.wire + s.wire, s.done)
  }

  // Every `writev` takes all.

  function Times(text: string, k: nat): string {
    if k == 0 then "" else text + Times(text, k - 1)
  }

  lemma {:induction false} TimesAdd(text: string, j: nat, k: nat)
    ensures Times(text, j) + Times(text, k) == Times(text, j + k)
  {
    if j > 0 {
      TimesAdd(text, j - 1, k);
      assert Times(text, j) + Times(text, k) == text + (Times(text, j - 1) + Times(text, k));
    }
  }

  predicate TakesAll(takes: seq<nat>, n: nat) {
    forall i | 0 <= i < |takes| :: takes[i] >= n
  }

  predicate AllTakesAll(calls: seq<seq<nat>>, n: nat) {
    forall i | 0 <= i < |calls| :: TakesAll(calls[i], n)
  }

  /** Complete writes send whole copies: just one, exactly if the total is no more than
      what there is to send. */
  lemma {:induction false} WholeCopies(text: string, left: int, takes: seq<nat>) returns (k: nat)
    requires text != "" && TakesAll(takes, |text|)
    ensures Sends(text, left, takes).wire == Times(text, k)
    ensures Sends(text, left, takes).done ==> k >= 1 && (k == 1 <==> left <= |text|)
  {
    if takes == [] {
      k := 0;
    } else {
      assert text[..|text|] == text;
      if left <= |text| {
        k := 1;
        assert Times(text, 1) == text + Times(text, 0) == text;
      } else {
        var j := WholeCopies(text, left - |text|, takes[1..]);
        k := j + 1;
      }
    }
  }

  /** The loop comes to its end as soon as complete writes have used up the count. */
  lemma {:induction false} WholeEnds(text: string, left: int, takes: seq<nat>)
    requires text != "" && TakesAll(takes, |text|) && takes != []
    ensures Sends(text, left, takes).done <==> left <= |takes| * |text|
  {
    var rest := takes[1..];
    assert |takes| * |text| == |rest| * |text| + |text|;
    if left > |text| && rest != [] {
      WholeEnds(text, left - |text|, rest);
    }
  }

  lemma {:induction false} WholeSession(text: string, total: int, calls: seq<seq<nat>>) returns (k: nat)
    requires text != "" && total != 0 && AllTakesAll(calls, |text|)
    ensures Session(text, total, calls).wire == Times(text, k)
    ensures Session(text, total, calls).done ==> k >= 1 && (k == 1 <==> total <= |text|)
  {
    if calls == [] {
      k := 0;
    } else {
      assert TakesAll(calls[0], |text|);
      assert forall i | 0 <= i < |calls[1..]| :: calls[1..][i] == calls[i + 1];
      k := WholeCopies(text, total, calls[0]);
      if !Call(text, total, calls[0]).done {
        var j := WholeSession(text, total, calls[1..]);
        TimesAdd(text, k, j);
        if total <= |text| {
          NoneTaken(text, total, calls[0]);
          assert "" + Session(text, total, calls[1..]).wire == Session(text, total, calls[1..]).wire;
          k := j;
        } else {
          k := k + j;
        }
      }
    }
  }

  lemma NoneTaken(text: string, total: int, takes: seq<nat>)
    requires TakesAll(takes, |text|) && total <= |text|
    ensures Sends(text, total, takes).done || Sends(text, total, takes).wire == ""
  {
  }

  // The first `writev` decides.

  predicate Positive(calls: seq<seq<nat>>) {
    forall i, j | 0 <= i < |calls| && 0 <= j < |calls[i]| :: calls[i][j] > 0
  }

  /** What the first `writev` that sends anything takes. */
  function FirstTake(calls: seq<seq<nat>>): Option<nat> {
    if calls == [] then None
    else if calls[0] != [] then Some(calls[0][0])
    else FirstTake(calls[1..])
  }

  lemma SendsStarts(text: string, left: int, takes: seq<nat>)
    requires text != "" && takes != [] && takes[0] > 0
    ensures var w := Sends(text, left, takes).wire; w != "" && w[0] == text[0]
  {
  }

  lemma {:induction false} SessionStarts(text: string, total: int, calls: seq<seq<nat>>)
    requires text != "" && total != 0 && Positive(calls) && Session(text, total, calls).done
    ensures var w := Session(text, total, calls).wire; w != "" && w[0] == text[0]
  {
    if calls[0] == [] {
      SessionStarts(text, total, calls[1..]);
    } else {
      assert calls[0][0] > 0;
      SendsStarts(text, total, calls[0]);
    }
  }

  /** Taken whole by the first `writev`, the text is sent once.  Otherwise what follows the
      part taken is the text from its first byte. */
  lemma {:induction false} FirstWrite(text: string, total: int, calls: seq<seq<nat>>)
    requires text != "" && total != 0 && Positive(calls) && Session(text, total, calls).done
    ensures FirstTake(calls).Some?
    ensures var s, t := Session(text, total, calls), FirstTake(calls).value;
            && (t >= |text| && total <= |text| ==> s.wire == text)
            && (t < |text| && t < total ==> |s.wire| > t && s.wire[..t] == text[..t] && s.wire[t] == text[0])
  {
    if calls[0] == [] {
      FirstWrite(text, total, calls[1..]);
      var w := Session(text, total, calls[1..]).wire;
      assert "" + w == w;
    } else {
      var t := calls[0][0];
      if t >= |text| {
        assert text[..|text|] == text;
      } else if t < total {
        RestStarts(text, total, calls, t);
      }
    }
  }

  lemma RestStarts(text: string, total: int, calls: seq<seq<nat>>, t: nat)
    requires total != 0 && Positive(calls) && Session(text, total, calls).done
    requires calls != [] && calls[0] != [] && calls[0][0] == t < |text| && t < total
    ensures var w := Session(text, total, calls).wire; |w| > t && w[..t] == text[..t] && w[t] == text[0]
  {
    var rest := calls[0][1..];
    var r := Sends(text, total - t, rest);
    assert Call(text, total, calls[0]) == Sent(text[..t] + r.wire, r.done);
    if rest != [] {
      assert rest[0] == calls[0][1];
      SendsStarts(text, total - t, rest);
    } else {
      SessionStarts(text, total, calls[1..]);
    }
  }
}
