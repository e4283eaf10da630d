/** Cut invariance of the request head: however the bytes of a request line and
    headers are cut into reads, with `process_read` run after each, the parser
    reaches the state and the outcome of one read of all of them. */
module HeadCuts {
  import opened Basics
  import opened CString
  import opened RequestHead

  // Everything the parser does below its cursor commutes with receiving more bytes.

  lemma FirstOfExtend(a: string, b: string, i: nat, accept: set<char>)
    requires i <= |a|
    ensures var k := FirstOf(a, i, accept);
            FirstOf(a + b, i, accept) == if k < |a| then k else FirstOf(a + b, |a|, accept)
    decreases |a| - i
  {
    if i < |a| {
      assert (a + b)[i] == a[i];
      if a[i] !in accept {
        FirstOfExtend(a, b, i + 1, accept);
      }
    }
  }

  lemma PutExtend(a: string, b: string, i: nat)
    requires i < |a|
    ensures PutNul(a + b, i) == PutNul(a, i) + b
  {
    assert (a + b)[i := NUL] == a[i := NUL] + b;
  }

  lemma OverwriteExtend(a: string, b: string, i: nat, w: string)
    requires i + |w| <= |a|
    ensures Overwrite(a + b, i, w) == Overwrite(a, i, w) + b
  {
    assert (a + b)[..i] == a[..i];
    assert (a + b)[i + |w|..] == a[i + |w|..] + b;
  }

  /** A completed line stays completed; an interrupted scan resumes. */
  lemma ScanExtend(c: Conn, b: string)
    requires c.checked <= |c.buf|
    ensures var s := Scan(c);
            Scan(Receive(c, b)) == if s.status == LineOk then Scanned(Receive(s.conn, b), LineOk)
                                   else Scan(Receive(s.conn, b))
  {
    var a := c.buf;
    var k := FirstOf(a, c.checked, EOL);
    FirstOfExtend(a, b, c.checked, EOL);
    if k == |a| {
      ScanFrom(c, b, k);
    } else {
      assert (a + b)[k] == a[k];
      if Scan(c).status == LineOk {
        ScanOkExtend(c, b, k);
      } else {
        ScanFrom(c, b, k);
      }
    }
  }

  /** A scan may start anywhere before the byte it finds. */
  lemma ScanFrom(c: Conn, b: string, k: nat)
    requires c.checked <= |c.buf| && k == FirstOf(c.buf, c.checked, EOL)
    ensures Scan(Receive(c, b)) == Scan(Receive(c.(checked := k), b))
  {
    hide ScanAt;
    FirstOfExtend(c.buf, b, c.checked, EOL);
    FirstOfExtend(c.buf, b, k, EOL);
    CursorIgnored(Receive(c, b), FirstOf(c.buf + b, k, EOL), k);
  }

  lemma CursorIgnored(c: Conn, k: nat, j: nat)
    requires k <= |c.buf| && (k < |c.buf| ==> c.buf[k] in EOL)
    ensures ScanAt(c.(checked := j), k) == ScanAt(c, k)
  {
  }

  lemma ScanOkExtend(c: Conn, b: string, k: nat)
    requires c.checked <= |c.buf| && k == FirstOf(c.buf, c.checked, EOL) < |c.buf|
    requires FirstOf(c.buf + b, c.checked, EOL) == k && Scan(c).status == LineOk
    ensures Scan(Receive(c, b)) == Scanned(Receive(Scan(c).conn, b), LineOk)
  {
    hide FirstOf, ScanAt, AfterLine;
    assert (c.buf + b)[k] == c.buf[k];
    ScanAtExtend(c, b, k);
  }

  lemma ScanAtExtend(c: Conn, b: string, k: nat)
    requires k < |c.buf| && c.buf[k] in EOL && ScanAt(c, k).status == LineOk
    requires (c.buf + b)[k] == c.buf[k]
    ensures ScanAt(Receive(c, b), k) == Scanned(Receive(ScanAt(c, k).conn, b), LineOk)
  {
    hide FirstOf, PutNul, AfterLine;
    var a := c.buf;
    if a[k] == CR {
      PutExtend(a, b, k);
      PutExtend(PutNul(a, k), b, k + 1);
    } else {
      PutExtend(a, b, k - 1);
      PutExtend(PutNul(a, k - 1), b, k);
    }
  }

  lemma CStrExtend(c: Conn, b: string, t: nat)
    requires AfterLine(c, t)
    ensures CStr(c.buf + b, t) == CStr(c.buf, t)
    ensures AfterLine(Receive(c, b), t)
  {
    LineEndsInside(c, t);
    CStrLocal(c.buf, c.buf + b, t, c.checked);
  }

  lemma RequestLineExtend(c: Conn, b: string, t: nat)
    requires AfterLine(c, t)
    ensures AfterLine(Receive(c, b), t)
    ensures var r := ParseRequestLine(c, t);
            ParseRequestLine(Receive(c, b), t) == Step(Receive(r.conn, b), r.code)
  {
    hide SplitLine, StrEnd, FirstOf, CStr, Cuts;
    CStrExtend(c, b, t);
    LineEndsInside(c, t);
    var s := CStr(c.buf, t);
    CutsExtend(c, b, t, SplitLine(s), |s|);
  }

  lemma CutsExtend(c: Conn, b: string, t: nat, x: Split, n: nat)
    requires SplitFits(x, n) && (n > 0 ==> t + n + 2 <= c.checked <= |c.buf|)
    ensures Cuts(Receive(c, b), t, x, n) == Step(Receive(Cuts(c, t, x, n).conn, b), Cuts(c, t, x, n).code)
  {
    hide Accept, Refuse;
    if x.Target? {
      AcceptExtend(c, b, t, x.m, x.p, x.v, x.u);
    } else {
      RefuseExtend(c, b, t, x);
    }
  }

  lemma RefuseExtend(c: Conn, b: string, t: nat, x: Split)
    requires !x.Target?
    requires x.BadMethod? || x.NoVersion? ==> t + x.p < |c.buf|
    requires x.BadVersion? || x.NoPath? || x.BadPath? ==> x.p < x.v && t + x.v < |c.buf|
    ensures Refuse(Receive(c, b), t, x) == Receive(Refuse(c, t, x), b)
  {
    hide Separated, PutNul;
    match x
    case NoTarget =>
    case BadMethod(p) => PutExtend(c.buf, b, t + p);
    case NoVersion(m, p, q) => PutExtend(c.buf, b, t + p);
    case BadVersion(m, p, q, v) => SeparatedExtend(c, b, t, m, p, v, At(t + q));
    case NoPath(m, p, v) => SeparatedExtend(c, b, t, m, p, v, Null);
    case BadPath(m, p, v, u) => SeparatedExtend(c, b, t, m, p, v, At(t + u));
  }

  lemma AcceptExtend(c: Conn, b: string, t: nat, m: Method, p: nat, v: nat, u: nat)
    requires p < u < v && t + v < |c.buf| && (v == u + 1 ==> t + v + |INDEX| <= |c.buf|)
    ensures Accept(Receive(c, b), t, m, p, v, u) == Receive(Accept(c, t, m, p, v, u), b)
  {
    hide AcceptedBytes;
    AcceptedExtend(c.buf, b, t, p, v, u);
  }

  lemma AcceptedExtend(a: string, b: string, t: nat, p: nat, v: nat, u: nat)
    requires p < u < v && t + v < |a| && (v == u + 1 ==> t + v + |INDEX| <= |a|)
    ensures AcceptedBytes(a + b, t, p, v, u) == AcceptedBytes(a, t, p, v, u) + b
  {
    hide Overwrite, PutNul;
    PutExtend(a, b, t + p);
    PutExtend(PutNul(a, t + p), b, t + v);
    if v == u + 1 {
      OverwriteExtend(PutNul(PutNul(a, t + p), t + v), b, t + v, INDEX);
    }
  }

  lemma SeparatedExtend(c: Conn, b: string, t: nat, m: Method, p: nat, v: nat, url: Ptr)
    requires t + v < |c.buf| && p < v
    ensures Separated(Receive(c, b), t, m, p, v, url) == Receive(Separated(c, t, m, p, v, url), b)
  {
    PutExtend(c.buf, b, t + p);
    PutExtend(PutNul(c.buf, t + p), b, t + v);
  }

  lemma HeaderLineExtend(c: Conn, b: string, t: nat)
    requires AfterLine(c, t)
    ensures var r := ParseHeaderLine(c, t);
            ParseHeaderLine(Receive(c, b), t) == Step(Receive(r.conn, b), r.code)
  {
    hide FieldOf, StrEnd, FirstOf, CStr, Apply;
    CStrExtend(c, b, t);
    ApplyExtend(c, b, t, FieldOf(CStr(c.buf, t)));
  }

  lemma ApplyExtend(c: Conn, b: string, t: nat, f: Field)
    ensures Apply(Receive(c, b), t, f) == Step(Receive(Apply(c, t, f).conn, b), Apply(c, t, f).code)
  {
  }

  /** Running the parser, receiving `b` and running again is the same as receiving
      `b` first, as long as the parser has not entered the body. */
  lemma {:induction false} Resume(c: Conn, b: string, canOpen: string -> bool)
    requires Valid(c) && ProcessRead(c, canOpen).conn.phase != Content
    ensures var r := ProcessRead(c, canOpen);
            ProcessRead(Receive(c, b), canOpen)
            == if r.code == NoRequest then ProcessRead(Receive(r.conn, b), canOpen)
               else Step(Receive(r.conn, b), r.code)
    decreases |c.buf| - c.checked
  {
    var s := Scan(c);
    ScanExtend(c, b);
    if s.status == LineOk {
      HandleExtend(s.conn, b, canOpen);
      if Handled(s.conn).code == NoRequest {
        Resume(Handled(s.conn).conn, b, canOpen);
      }
    }
  }

  /** One head line, without what follows it. */
  function Handled(c: Conn): (r: Step)
    requires Valid(c) && c.phase != Content && AfterLine(c, c.start)
    ensures Valid(r.conn) && |r.conn.buf| == |c.buf| && c.checked <= r.conn.checked
    ensures r.code == NoRequest && c.phase == RequestLine ==> r.conn.phase == Header
  {
    var d := c.(start := c.checked);
    if c.phase == RequestLine then ParseRequestLine(d, c.start) else ParseHeaderLine(d, c.start)
  }

  lemma HandleIsHandled(c: Conn, canOpen: string -> bool)
    requires Valid(c) && c.phase != Content && AfterLine(c, c.start)
    ensures var r := Handled(c);
            Handle(c, canOpen) == if r.code == NoRequest then ProcessRead(r.conn, canOpen) else r
  {
    hide ParseRequestLine, ParseHeaderLine;
  }

  lemma HandleExtend(c: Conn, b: string, canOpen: string -> bool)
    requires Valid(c) && c.phase != Content && AfterLine(c, c.start)
    ensures AfterLine(Receive(c, b), c.start)
    ensures Handled(Receive(c, b)) == Step(Receive(Handled(c).conn, b), Handled(c).code)
    ensures var r := Handled(c);
            Handle(c, canOpen) == if r.code == NoRequest then ProcessRead(r.conn, canOpen) else r
    ensures var r := Handled(c);
            Handle(Receive(c, b), canOpen)
            == if r.code == NoRequest then ProcessRead(Receive(r.conn, b), canOpen)
               else Step(Receive(r.conn, b), r.code)
  {
    hide ParseRequestLine, ParseHeaderLine;
    var d := c.(start := c.checked);
    assert Receive(c, b).(start := c.checked) == Receive(d, b);
    if c.phase == RequestLine {
      RequestLineExtend(d, b, c.start);
    } else {
      HeaderLineExtend(d, b, c.start);
    }
    HandleIsHandled(c, canOpen);
    HandleIsHandled(Receive(c, b), canOpen);
  }

  // Whole runs.

  function Flatten(chunks: seq<string>): string {
    if chunks == [] then "" else chunks[0] + Flatten(chunks[1..])
  }

  /** The reads of one request: `process_read` runs after each, until it answers
      something other than `NO_REQUEST`; later bytes stay unread. */
  function Feed(c: Conn, chunks: seq<string>, canOpen: string -> bool): (r: Step)
    requires Valid(c)
    ensures Valid(r.conn)
    decreases |chunks|
  {
    if chunks == [] then Step(c, NoRequest)
    else
      var r := ProcessRead(Receive(c, chunks[0]), canOpen);
      if r.code == NoRequest && |chunks| > 1 then Feed(r.conn, chunks[1..], canOpen)
      else Step(Receive(r.conn, Flatten(chunks[1..])), r.code)
  }

  /** No read but the last takes the parser into the body. */
  ghost predicate HeadUntilLast(c: Conn, chunks: seq<string>, canOpen: string -> bool)
    requires Valid(c)
    decreases |chunks|
  {
    |chunks| <= 1
    || (var r := ProcessRead(Receive(c, chunks[0]), canOpen);
        && r.conn.phase != Content
        && (r.code == NoRequest ==> HeadUntilLast(r.conn, chunks[1..], canOpen)))
  }

  /** Any cutting gives the outcome, the fields, the cursors and the buffer of one whole read. */
  lemma {:induction false} CutInvariance(c: Conn, chunks: seq<string>, canOpen: string -> bool)
    requires Valid(c) && chunks != [] && HeadUntilLast(c, chunks, canOpen)
    ensures Feed(c, chunks, canOpen) == ProcessRead(Receive(c, Flatten(chunks)), canOpen)
    decreases |chunks|
  {
    var rest := Flatten(chunks[1..]);
    var d := Receive(c, chunks[0]);
    assert Receive(d, rest) == Receive(c, Flatten(chunks)) by {
      assert c.buf + chunks[0] + rest == c.buf + (chunks[0] + rest);
    }
    if |chunks| > 1 {
      Resume(d, rest, canOpen);
      var r := ProcessRead(d, canOpen);
      if r.code == NoRequest {
        CutInvariance(r.conn, chunks[1..], canOpen);
      }
    } else {
      assert chunks[1..] == [];
      var r := ProcessRead(d, canOpen);
      assert r.conn.buf + "" == r.conn.buf;
      assert d.buf + "" == d.buf;
    }
  }
}
