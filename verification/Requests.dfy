/** Whole requests: what the parser answers, for every way the bytes can arrive. */
module Requests {
  import opened Basics
  import opened CString
  import opened RequestHead
  import opened HeadCuts
  import opened HeadMeaning
  import Multipart

  lemma FreshSim(raw: string)
    ensures Sim(Receive(FRESH, raw), raw, 0, NONE_YET)
  {
    assert "" + raw == raw;
  }

  /** No proper prefix of the reads already holds a complete head with a body
      behind it: the body arrives with the read that completes the head. */
  predicate BodyInLastRead(before: string, chunks: seq<string>) {
    forall n | 1 <= n < |chunks| ::
      ReadHead(before + Flatten(chunks[..n]), 0, NONE_YET).outcome != HasBody
  }

  lemma FlattenTail(chunks: seq<string>, n: nat)
    requires 1 <= n <= |chunks|
    ensures Flatten(chunks[..n]) == chunks[0] + Flatten(chunks[1..][..n - 1])
  {
    assert chunks[..n][1..] == chunks[1..][..n - 1];
  }

  /** A read that does not reach a body leaves the parser outside the body. */
  lemma StaysInHead(raw: string, canOpen: string -> bool)
    requires ReadHead(raw, 0, NONE_YET).outcome != HasBody
    ensures ProcessRead(Receive(FRESH, raw), canOpen).conn.phase != Content
    ensures ProcessRead(Receive(FRESH, raw), canOpen).code == CodeFor(ReadHead(raw, 0, NONE_YET).outcome)
  {
    hide ReadHead, Sim, ProcessRead;
    FreshSim(raw);
    var d := HeadSim(Receive(FRESH, raw), raw, 0, NONE_YET, canOpen);
    var h := ReadHead(raw, 0, NONE_YET);
    if h.outcome == Incomplete {
      SimFacts(d.(checked := h.next), raw, h.next, h.req);
    } else if h.outcome == Complete {
      SimFacts(d, raw, h.next, h.req);
    }
  }

  lemma {:induction false} ReadsStayInHead(before: string, chunks: seq<string>, canOpen: string -> bool)
    requires chunks != [] && BodyInLastRead(before, chunks)
    requires var r := ProcessRead(Receive(FRESH, before), canOpen);
             r.code == NoRequest && r.conn.phase != Content
    ensures HeadUntilLast(ProcessRead(Receive(FRESH, before), canOpen).conn, chunks, canOpen)
    decreases |chunks|
  {
    hide ReadHead, ProcessRead;
    if |chunks| > 1 {
      var c := ProcessRead(Receive(FRESH, before), canOpen).conn;
      var before' := before + chunks[0];
      Resume(Receive(FRESH, before), chunks[0], canOpen);
      assert Receive(Receive(FRESH, before), chunks[0]) == Receive(FRESH, before');
      FlattenTail(chunks, 1);
      assert before + Flatten(chunks[..1]) == before';
      StaysInHead(before', canOpen);
      var r := ProcessRead(Receive(FRESH, before'), canOpen);
      if r.code == NoRequest {
        forall n | 1 <= n < |chunks| - 1
          ensures ReadHead(before' + Flatten(chunks[1..][..n]), 0, NONE_YET).outcome != HasBody
        {
          FlattenTail(chunks, n + 1);
          assert before + Flatten(chunks[..n + 1]) == before' + Flatten(chunks[1..][..n]);
        }
        ReadsStayInHead(before', chunks[1..], canOpen);
      }
    }
  }

  /** However the bytes are cut, the reads give what one read of them all gives,
      provided a body does not begin to arrive before the read that ends it. */
  lemma AnyCuts(chunks: seq<string>, canOpen: string -> bool)
    requires chunks != [] && BodyInLastRead("", chunks)
    ensures Feed(FRESH, chunks, canOpen) == ProcessRead(Receive(FRESH, Flatten(chunks)), canOpen)
  {
    assert Receive(FRESH, "") == FRESH;
    ReadsStayInHead("", chunks, canOpen);
    assert ProcessRead(FRESH, canOpen).conn == FRESH;
    CutInvariance(FRESH, chunks, canOpen);
  }

  // What an incomplete or rejected body does.

  /** Once the bytes that can still count as body are too few, the loop only
      scans: it answers `NO_REQUEST` and waits for the same body. */
  lemma {:induction false} BodyStalls(c: Conn, canOpen: string -> bool)
    requires Valid(c) && c.phase == Content && |c.buf| <= c.contentLength + c.checked
    requires c.contentLength + |c.buf| < 0x8000_0000
    ensures var r := Run(c, LineOpen, canOpen);
            r.code == NoRequest && r.conn.phase == Content && r.conn.contentLength == c.contentLength
    decreases |c.buf| - c.checked
  {
    hide ScanAt, FirstOf;
    var s := Scan(c);
    if s.status == LineOk {
      var d := s.conn.(start := s.conn.checked);
      assert Handle(s.conn, canOpen) == Run(d, LineOpen, canOpen);
      BodyStalls(d, canOpen);
    }
  }

  lemma ContentStep(c: Conn, canOpen: string -> bool)
    requires Valid(c) && c.phase == Content
    ensures var r := ParseContent(c.(start := c.checked), c.start, canOpen);
            ProcessRead(c, canOpen)
            == if r.code == Dispatch || r.code == Undefined then r else Run(r.conn, LineOpen, canOpen)
  {
    hide ParseContent;
    assert Run(c, LineOk, canOpen) == Handle(c, canOpen);
  }
}
