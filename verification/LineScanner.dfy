/** Invariants of the line scanner over every run: the cursor never passes a lone
    CR, and a bad line end stops the parser for good. */
module LineScanner {
  import opened Basics
  import opened CString
  import opened RequestHead
  import opened HeadCuts
  import Multipart

  /** The byte just before the cursor is not a CR. */
  predicate NoCrBehind(c: Conn) {
    Valid(c) && (c.checked > 0 ==> c.buf[c.checked - 1] != CR)
  }

  /** Under the invariant a line is completed only at a CRLF still wholly ahead of
      the cursor: the branch for a LF whose CR was passed earlier is dead. */
  lemma LinesEndAtCrLf(c: Conn)
    requires NoCrBehind(c) && Scan(c).status == LineOk
    ensures var k := FirstOf(c.buf, c.checked, EOL);
            && k + 1 < |c.buf| && c.buf[k] == CR && c.buf[k + 1] == LF
            && Scan(c).conn.checked == k + 2
  {
    var k := FirstOf(c.buf, c.checked, EOL);
    assert k > c.checked ==> c.buf[k - 1] !in EOL;
  }

  lemma ScanKeeps(c: Conn)
    requires NoCrBehind(c)
    ensures NoCrBehind(Scan(c).conn)
    ensures Scan(c).status == LineOk ==> Scan(c).conn.buf[Scan(c).conn.checked - 1] == NUL
  {
    var k := FirstOf(c.buf, c.checked, EOL);
    assert k > c.checked ==> c.buf[k - 1] !in EOL;
  }

  predicate NoNewCr(b: string, b': string) {
    |b'| == |b| && forall k | 0 <= k < |b| && b'[k] == CR :: b[k] == CR
  }

  lemma RequestLineNoNewCr(c: Conn, t: nat)
    requires AfterLine(c, t)
    ensures NoNewCr(c.buf, ParseRequestLine(c, t).conn.buf)
  {
    hide SplitLine, CStr, AcceptedBytes, Refuse, NoNewCr;
    LineEndsInside(c, t);
    var x := SplitLine(CStr(c.buf, t));
    if x.Target? {
      AcceptedNoNewCr(c.buf, t, x.p, x.v, x.u);
    } else {
      RefuseNoNewCr(c, t, x);
    }
  }

  lemma AcceptedNoNewCr(b: string, t: nat, p: nat, v: nat, u: nat)
    requires p < u < v && t + v < |b| && (v == u + 1 ==> t + v + |INDEX| <= |b|)
    ensures NoNewCr(b, AcceptedBytes(b, t, p, v, u))
  {
    hide Overwrite, PutNul;
    if v == u + 1 {
      HasNoCr(PutNul(PutNul(b, t + p), t + v), t + v, INDEX);
    }
  }

  lemma RefuseNoNewCr(c: Conn, t: nat, x: Split)
    requires !x.Target?
    requires x.BadMethod? || x.NoVersion? ==> t + x.p < |c.buf|
    requires x.BadVersion? || x.NoPath? || x.BadPath? ==> x.p < x.v && t + x.v < |c.buf|
    ensures NoNewCr(c.buf, Refuse(c, t, x).buf)
  {
    hide PutNul;
  }

  lemma HasNoCr(b: string, i: nat, w: string)
    requires i + |w| <= |b| && CR !in w
    ensures NoNewCr(b, Overwrite(b, i, w))
  {
    var r := Overwrite(b, i, w);
    assert forall k | i <= k < i + |w| :: r[k] == r[i..i + |w|][k - i] && r[k] in w;
    assert forall k | 0 <= k < i :: r[k] == r[..i][k] == b[..i][k];
    assert forall k | i + |w| <= k < |b| :: r[k] == r[i + |w|..][k - i - |w|] == b[i + |w|..][k - i - |w|];
  }

  /** Every step of the driver loop keeps the invariant. */
  lemma {:induction false} RunKeeps(c: Conn, status: LineStatus, canOpen: string -> bool)
    requires NoCrBehind(c)
    ensures NoCrBehind(Run(c, status, canOpen).conn)
    decreases |c.buf| - c.checked, if c.phase == Content && status == LineOk then 2 else 0
  {
    hide Scan, ParseRequestLine, ParseHeaderLine, ParseContent, AfterLine;
    if c.phase == Content && status == LineOk {
      HandleKeeps(c, canOpen);
    } else {
      ScanKeeps(c);
      if Scan(c).status == LineOk {
        HandleKeeps(Scan(c).conn, canOpen);
      }
    }
  }

  lemma {:induction false} HandleKeeps(c: Conn, canOpen: string -> bool)
    requires NoCrBehind(c) && (c.phase == Content || AfterLine(c, c.start))
    ensures NoCrBehind(Handle(c, canOpen).conn)
    decreases |c.buf| - c.checked, if c.phase == Content then 1 else 3
  {
    hide ParseRequestLine, ParseHeaderLine, ParseContent;
    var t := c.start;
    var d := c.(start := c.checked);
    match c.phase
    case RequestLine =>
      var r := ParseRequestLine(d, t);
      RequestLineNoNewCr(d, t);
      if r.code == NoRequest { RunKeeps(r.conn, LineOk, canOpen); }
    case Header =>
      var r := ParseHeaderLine(d, t);
      if r.code == NoRequest { RunKeeps(r.conn, LineOk, canOpen); }
    case Content =>
      var r := ParseContent(d, t, canOpen);
      ContentNoNewCr(d, t, canOpen);
      if r.code != Dispatch && r.code != Undefined { RunKeeps(r.conn, LineOpen, canOpen); }
  }

  lemma ContentNoNewCr(c: Conn, t: nat, canOpen: string -> bool)
    requires t <= c.checked <= |c.buf|
    ensures NoNewCr(c.buf, ParseContent(c, t, canOpen).conn.buf)
  {
    hide Multipart.ParsePart;
  }

  /** Over every run from a fresh connection, whatever bytes arrive in whatever reads. */
  lemma {:induction false} EveryRun(c: Conn, chunks: seq<string>, canOpen: string -> bool)
    requires NoCrBehind(c)
    ensures NoCrBehind(Feed(c, chunks, canOpen).conn)
    decreases |chunks|
  {
    hide ProcessRead;
    if chunks != [] {
      var d := Receive(c, chunks[0]);
      ReadKeeps(d, canOpen);
      var r := ProcessRead(d, canOpen);
      if r.code == NoRequest && |chunks| > 1 {
        EveryRun(r.conn, chunks[1..], canOpen);
      }
    }
  }

  lemma ReadKeeps(c: Conn, canOpen: string -> bool)
    requires NoCrBehind(c)
    ensures NoCrBehind(ProcessRead(c, canOpen).conn)
  {
    RunKeeps(c, LineOk, canOpen);
  }

  /** A bad line end persists: whatever bytes follow, the scanner stays on it... */
  lemma BadStays(c: Conn, b: string)
    requires c.checked <= |c.buf| && Scan(c).status == LineBad
    ensures Scan(Receive(Scan(c).conn, b)) == Scanned(Receive(Scan(c).conn, b), LineBad)
  {
    hide PutNul;
    var k := FirstOf(c.buf, c.checked, EOL);
    var d := c.(checked := k);
    assert Scan(c).conn == d;
    FirstOfExtend(c.buf, b, k, EOL);
    assert FirstOf(c.buf + b, k, EOL) == k;
    assert k > 1 ==> (c.buf + b)[k - 1] == c.buf[k - 1];
    assert k + 1 < |c.buf| ==> (c.buf + b)[k + 1] == c.buf[k + 1];
    assert (c.buf + b)[k] == c.buf[k];
  }

  /** ...and every later `process_read` answers `NO_REQUEST` and changes nothing. */
  lemma BadLineStalls(c: Conn, b: string, canOpen: string -> bool)
    requires Valid(c) && c.phase != Content && Scan(c) == Scanned(c, LineBad)
    ensures ProcessRead(Receive(c, b), canOpen) == Step(Receive(c, b), NoRequest)
    ensures Scan(Receive(c, b)) == Scanned(Receive(c, b), LineBad)
  {
    hide Scan;
    BadStays(c, b);
  }
}
