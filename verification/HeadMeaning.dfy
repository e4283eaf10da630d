/** What the in-place parser computes: the request head, read as a sequence of
    CRLF-terminated lines.  The reference below never modifies a byte, keeps values
    instead of pointers, and knows nothing of cursors; the parser is proved to
    agree with it on every input. */
module HeadMeaning {
  import opened Basics
  import opened CString
  import opened RequestHead
  import HeadCuts
  import Multipart

  // The reference.

  /** A line starts at `i`: it runs to the first CR or LF, which must be a CRLF
      (RFC 9112, section 2.2). */
  predicate LineAt(raw: string, i: nat)
    requires i <= |raw|
  {
    var k := FirstOf(raw, i, EOL);
    k + 1 < |raw| && raw[k] == CR && raw[k + 1] == LF
  }

  function NextLine(raw: string, i: nat): (j: nat)
    requires i <= |raw| && LineAt(raw, i)
    ensures i + 2 <= j <= |raw|
  {
    FirstOf(raw, i, EOL) + 2
  }

  /** The text of that line, which the C code reads only up to an embedded NUL. */
  function LineText(raw: string, i: nat): (s: string)
    requires i <= |raw| && LineAt(raw, i)
    ensures NUL !in s
  {
    Cut(raw[i..FirstOf(raw, i, EOL)])
  }

  /** A value and where its first byte lies in the raw bytes. */
  datatype Held = Held(at: nat, text: string)

  datatype Request = Request(
    phase: Phase, meth: Method, url: Held, host: Option<Held>, linger: bool,
    contentLength: int, cookie: bool, multipart: bool, boundary: string)

  const NONE_YET: Request := Request(RequestLine, GET, Held(0, ""), None, false, 0, false, false, "")

  datatype Outcome = Incomplete | Complete | HasBody | Malformed | Overlong

  /** The request after one more line. */
  datatype Read = Read(req: Request, outcome: Outcome)

  function ReadLine(req: Request, i: nat, s: string): (r: Read) {
    if req.phase == RequestLine then ReadTarget(req, i, s, SplitLine(s)) else ReadField(req, i, s, FieldOf(s))
  }

  function ReadTarget(req: Request, i: nat, s: string, x: Split): (r: Read)
    requires SplitFits(x, |s|)
  {
    if x.Target? then
      Read(req.(phase := Header, meth := x.m, url := Held(i + x.u, PathOf(s[x.u..x.v]))), Incomplete)
    else Read(req, Malformed)
  }

  function ReadField(req: Request, i: nat, s: string, f: Field): (r: Read)
    requires f.HostAt? ==> f.k <= |s|
  {
    match f
    case Blank =>
      if req.contentLength != 0 then Read(req.(phase := Content), HasBody) else Read(req, Complete)
    case KeepAlive => Read(req.(linger := true), Incomplete)
    case Length(n) => Read(req.(contentLength := n), Incomplete)
    case HostAt(k) => Read(req.(host := Some(Held(i + k, s[k..]))), Incomplete)
    case LoginCookie => Read(req.(cookie := true), Incomplete)
    case FormData => Read(req.(multipart := true), Incomplete)
    case Boundary(mark) =>
      if |mark| >= Multipart.BOUNDARY_MAX then Read(req.(multipart := true), Overlong)
      else Read(req.(multipart := true, boundary := mark), Incomplete)
    case Ignored => Read(req, Incomplete)
  }

  function PathOf(path: string): string {
    if path == "/" then "/index.html" else path
  }

  /** The code `process_read` sees after a line, for each outcome of the reference. */
  function CodeFor(o: Outcome): Code {
    match o
    case Malformed => BadRequest
    case Complete => Dispatch
    case Overlong => Undefined
    case _ => NoRequest
  }

  datatype Head = Head(req: Request, next: nat, outcome: Outcome)

  /** The request head in `raw` from line start `i` on, and where it ends. */
  function ReadHead(raw: string, i: nat, req: Request): (h: Head)
    requires i <= |raw|
    ensures i <= h.next <= |raw|
    decreases |raw| - i
  {
    if !LineAt(raw, i) then Head(req, i, Incomplete)
    else
      var r := ReadLine(req, i, LineText(raw, i));
      var j := NextLine(raw, i);
      if r.outcome == Incomplete then ReadHead(raw, j, r.req) else Head(r.req, j, r.outcome)
  }

  // The simulation.

  /** The pointer designates the C string `h`, which ends before the cursor. */
  predicate Holds(b: string, p: Ptr, n: nat, h: Held) {
    p == At(h.at) && h.at <= |b| && StrEnd(b, h.at) < n && CStr(b, h.at) == h.text
  }

  predicate SameFields(c: Conn, req: Request) {
    && c.phase == req.phase && c.linger == req.linger && c.contentLength == req.contentLength
    && c.cookie == req.cookie && c.multipart == req.multipart && c.boundary == req.boundary
    && c.meth == req.meth
  }

  predicate SamePointers(b: string, c: Conn, n: nat, req: Request) {
    && (req.phase == RequestLine || Holds(b, c.url, n, req.url))
    && (req.host.None? ==> c.host == Null)
    && (req.host.Some? ==> Holds(b, c.host, n, req.host.value))
  }

  predicate SameTail(b: string, raw: string, i: nat) {
    |b| == |raw| && i <= |raw| && forall k | i <= k < |raw| :: b[k] == raw[k]
  }

  /** The parser stands at line start `i` of `raw`, having read `req`; the bytes
      from there on are untouched. */
  predicate Sim(c: Conn, raw: string, i: nat, req: Request) {
    && c.start == c.checked == i && SameTail(c.buf, raw, i)
    && (i > 0 ==> c.buf[i - 1] == NUL)
    && SameFields(c, req) && SamePointers(c.buf, c, i, req)
  }

  lemma FirstOfSameTail(b: string, raw: string, i: nat, accept: set<char>)
    requires SameTail(b, raw, i)
    ensures FirstOf(b, i, accept) == FirstOf(raw, i, accept)
  {
    FirstOfUnique(b, i, accept, FirstOf(raw, i, accept));
  }

  /** Writes at or past `i` leave the C strings that end before `i` alone. */
  lemma PointersKept(b: string, b': string, c: Conn, i: nat, j: nat, req: Request)
    requires SamePointers(b, c, i, req) && i <= j && i <= |b| == |b'|
    requires forall k | 0 <= k < i :: b[k] == b'[k]
    ensures SamePointers(b', c, j, req)
  {
    if req.phase != RequestLine {
      HoldsKept(b, b', c.url, i, j, req.url);
    }
    if req.host.Some? {
      HoldsKept(b, b', c.host, i, j, req.host.value);
    }
  }

  lemma HoldsKept(b: string, b': string, p: Ptr, i: nat, j: nat, h: Held)
    requires Holds(b, p, i, h) && i <= j && i <= |b| == |b'|
    requires forall k | 0 <= k < i :: b[k] == b'[k]
    ensures Holds(b', p, j, h)
  {
    hide CStr, StrEnd;
    CStrLocal(b, b', h.at, i);
  }

  /** The buffer after a line ending at `k` has been scanned. */
  function Ended(b: string, k: nat): (r: string)
    requires k + 1 < |b|
    ensures |r| == |b|
    ensures forall j | 0 <= j < |b| :: r[j] == if k <= j <= k + 1 then NUL else b[j]
  {
    PutNul(PutNul(b, k), k + 1)
  }

  /** The scanner finds exactly the next line of `raw`; otherwise it changes no byte. */
  lemma ScanSim(c: Conn, raw: string, i: nat)
    requires c.checked == i && SameTail(c.buf, raw, i) && (i > 0 ==> c.buf[i - 1] == NUL)
    ensures LineAt(raw, i) ==>
              Scan(c) == Scanned(c.(buf := Ended(c.buf, NextLine(raw, i) - 2), checked := NextLine(raw, i)), LineOk)
    ensures !LineAt(raw, i) ==>
              Scan(c).status != LineOk && Scan(c).conn == c.(checked := Scan(c).conn.checked)
  {
    hide FirstOf, PutNul;
    FirstOfSameTail(c.buf, raw, i, EOL);
    var k := FirstOf(raw, i, EOL);
    assert Scan(c) == ScanAt(c, k);
    if k < |raw| && c.buf[k] == LF && k > 1 {
      assert k == i ==> c.buf[k - 1] == NUL;
    }
  }

  /** The scanned line, as a C string, is the text of that line of `raw`. */
  lemma ScannedText(b: string, raw: string, i: nat)
    requires SameTail(b, raw, i) && LineAt(raw, i)
    ensures var j := NextLine(raw, i);
            var b' := Ended(b, j - 2);
            && CStr(b', i) == LineText(raw, i)
            && SameTail(b', raw, j)
            && (forall k | 0 <= k < i :: b'[k] == b[k])
  {
    hide FirstOf, PutNul, CStr, Cut;
    var k := FirstOf(raw, i, EOL);
    TextSim(Ended(b, k), raw, i, k);
  }

  lemma TextSim(b: string, raw: string, i: nat, k: nat)
    requires i <= k < |raw| == |b| && b[k] == NUL
    requires forall j | i <= j < k :: b[j] == raw[j]
    ensures CStr(b, i) == Cut(raw[i..k])
  {
    var line := raw[i..k];
    var e := StrEnd(line, 0);
    assert forall j | 0 <= j < k - i :: line[j] == raw[i + j] == b[i + j];
    forall j | i <= j < i + e ensures b[j] != NUL {
      assert line[j - i] == b[j];
    }
    FirstOfUnique(b, i, {NUL}, i + e);
    var x, y := b[i..i + e], line[0..e];
    assert forall j | 0 <= j < e :: x[j] == b[i + j] && y[j] == line[j];
    assert x == y;
  }

  /** The accepted target: its path, with "/" completed, is the C string at `url`,
      and no byte before the line or at or past the cursor has changed. */
  lemma AcceptedUrl(b: string, t: nat, n: nat, p: nat, v: nat, u: nat, path: string)
    requires p < u < v && t + v + |INDEX| <= n <= |b| && b[n - 1] == NUL
    requires |path| == v - u && NUL !in path && path[0] == '/'
    requires forall j | 0 <= j < |path| :: b[t + u + j] == path[j]
    ensures var d := AcceptedBytes(b, t, p, v, u);
            && Holds(d, At(t + u), n, Held(t + u, PathOf(path)))
            && (forall k | 0 <= k < t :: d[k] == b[k])
            && (forall k | n <= k < |b| :: d[k] == b[k])
            && d[n - 1] == NUL
  {
    hide PutNul, Overwrite, CStr, StrEnd;
    var d := AcceptedBytes(b, t, p, v, u);
    if v == u + 1 {
      assert path == "/";
      var cut := PutNul(PutNul(b, t + p), t + v);
      OverwriteEach(cut, t + v, INDEX);
      IndexAt(d, t + u);
    } else {
      assert path != "/";
      CStrIs(d, t + u, path);
    }
  }

  lemma IndexAt(d: string, i: nat)
    requires i + 12 <= |d| && d[i] == '/'
    requires forall j | 0 <= j < |INDEX| :: d[i + 1 + j] == INDEX[j]
    ensures StrEnd(d, i) == i + 11 && CStr(d, i) == "/index.html"
  {
    var w := "/index.html";
    assert d[i + 1 + 10] == INDEX[10];
    forall j | 0 <= j < |w| ensures d[i + j] == w[j] {
      if j > 0 {
        assert d[i + 1 + (j - 1)] == INDEX[j - 1];
      }
    }
    CStrIs(d, i, w);
  }

  lemma OverwriteEach(b: string, i: nat, w: string)
    requires i + |w| <= |b|
    ensures forall k | 0 <= k < i :: Overwrite(b, i, w)[k] == b[k]
    ensures forall j | 0 <= j < |w| :: Overwrite(b, i, w)[i + j] == w[j]
    ensures forall k | i + |w| <= k < |b| :: Overwrite(b, i, w)[k] == b[k]
  {
  }

  /** The C string at `i` is `w` when `w` and then NUL are there. */
  lemma CStrIs(b: string, i: nat, w: string)
    requires i + |w| < |b| && NUL !in w && b[i + |w|] == NUL
    requires forall j | 0 <= j < |w| :: b[i + j] == w[j]
    ensures StrEnd(b, i) == i + |w| && CStr(b, i) == w
  {
    forall k | i <= k < i + |w| ensures b[k] != NUL {
      assert b[i + (k - i)] == w[k - i];
    }
    FirstOfUnique(b, i, {NUL}, i + |w|);
    var s := b[i..i + |w|];
    assert forall j | 0 <= j < |w| :: s[j] == b[i + j];
    assert s == w;
  }

  // One line, then the whole head.

  /** The parser has scanned the line of `raw` from `i` to `j` and not yet read it. */
  predicate Mid(d: Conn, raw: string, i: nat, j: nat, req: Request) {
    && d.start == d.checked == j && AfterLine(d, i)
    && SameTail(d.buf, raw, j) && SameFields(d, req) && SamePointers(d.buf, d, i, req)
  }

  function Scanning(c: Conn, j: nat): (d: Conn)
    requires 2 <= j <= |c.buf|
  {
    c.(buf := Ended(c.buf, j - 2), checked := j, start := j)
  }

  lemma ScanToMid(c: Conn, raw: string, i: nat, req: Request)
    requires Sim(c, raw, i, req) && LineAt(raw, i)
    ensures var j := NextLine(raw, i);
            Mid(Scanning(c, j), raw, i, j, req) && CStr(Ended(c.buf, j - 2), i) == LineText(raw, i)
  {
    hide CStr, StrEnd, FirstOf, LineText, PutNul, Holds;
    ScannedText(c.buf, raw, i);
    PointersKept(c.buf, Ended(c.buf, NextLine(raw, i) - 2), c, i, i, req);
  }

  lemma FieldSim(d: Conn, raw: string, i: nat, j: nat, req: Request, s: string, f: Field)
    requires Mid(d, raw, i, j, req) && req.phase == Header
    requires s == CStr(d.buf, i) && (f.HostAt? ==> f.k <= |s|)
    ensures var ref := ReadField(req, i, s, f);
            var r := Apply(d, i, f);
            && Sim(r.conn, raw, j, ref.req)
            && ref.outcome != Malformed
            && r.code == CodeFor(ref.outcome)
            && (ref.outcome == HasBody <==> ref.req.phase == Content)
            && (ref.outcome == Incomplete || ref.outcome == Complete ==> ref.req.phase == Header)
            && (ref.outcome == Overlong ==> r.conn.phase == Header)
  {
    LineEndsInside(d, i);
    PointersKept(d.buf, d.buf, d, i, j, req);
    if f.HostAt? {
      SuffixHeld(d.buf, i, j, f.k);
    }
    assert Sim(d, raw, j, req);
    ApplySim(d, raw, i, j, req, s, f);
  }

  lemma ApplySim(d: Conn, raw: string, i: nat, j: nat, req: Request, s: string, f: Field)
    requires Sim(d, raw, j, req) && req.phase == Header && (f.HostAt? ==> f.k <= |s|)
    requires f.HostAt? ==> Holds(d.buf, At(i + f.k), j, Held(i + f.k, s[f.k..]))
    ensures var ref := ReadField(req, i, s, f);
            var r := Apply(d, i, f);
            && Sim(r.conn, raw, j, ref.req)
            && ref.outcome != Malformed
            && r.code == CodeFor(ref.outcome)
            && (ref.outcome == HasBody <==> ref.req.phase == Content)
            && (ref.outcome == Incomplete || ref.outcome == Complete ==> ref.req.phase == Header)
            && (ref.outcome == Overlong ==> r.conn.phase == Header)
  {
    hide Holds, SameTail;
  }

  lemma TargetSim(d: Conn, raw: string, i: nat, j: nat, req: Request, s: string, x: Split)
    requires Mid(d, raw, i, j, req) && req.phase == RequestLine
    requires s == CStr(d.buf, i) && SplitFits(x, |s|) && x.Target? && s[x.u] == '/'
    ensures Sim(Accept(d, i, x.m, x.p, x.v, x.u), raw, j, ReadTarget(req, i, s, x).req)
  {
    hide CStr, StrEnd, AcceptedBytes, PathOf, Holds, FirstOf;
    LineEndsInside(d, i);
    var path := s[x.u..x.v];
    assert forall k | 0 <= k < |path| :: d.buf[i + x.u + k] == d.buf[i..i + |s|][x.u + k] == path[k];
    AcceptedUrl(d.buf, i, j, x.p, x.v, x.u, path);
    PointersKept(d.buf, AcceptedBytes(d.buf, i, x.p, x.v, x.u), d, i, j, req);
  }

  lemma SuffixHeld(b: string, i: nat, n: nat, k: nat)
    requires i <= |b| && StrEnd(b, i) < n && k <= |CStr(b, i)|
    ensures Holds(b, At(i + k), n, Held(i + k, CStr(b, i)[k..]))
  {
    var e := StrEnd(b, i);
    FirstOfUnique(b, i + k, {NUL}, e);
    assert b[i..e][k..] == b[i + k..e];
  }

  lemma ReadSim(d: Conn, raw: string, i: nat, j: nat, req: Request, s: string)
    requires Mid(d, raw, i, j, req) && req.phase != Content && s == CStr(d.buf, i)
    ensures var ref := ReadLine(req, i, s);
            var r := if d.phase == RequestLine then ParseRequestLine(d, i) else ParseHeaderLine(d, i);
            && r.code == CodeFor(ref.outcome)
            && (ref.outcome != Malformed ==> Sim(r.conn, raw, j, ref.req))
            && (ref.outcome == HasBody <==> ref.req.phase == Content)
            && (ref.outcome == Incomplete || ref.outcome == Complete ==> ref.req.phase == Header)
            && (ref.outcome == Malformed || ref.outcome == Overlong ==> r.conn.phase == req.phase)
  {
    hide CStr, StrEnd, Apply, SplitLine, FieldOf, ReadField, Sim, AfterLine, Accept, Refuse;
    if req.phase == RequestLine {
      var x := SplitLine(s);
      if x.Target? {
        TargetSim(d, raw, i, j, req, s, x);
      }
    } else {
      FieldSim(d, raw, i, j, req, s, FieldOf(s));
    }
  }

  /** What the parser does with one whole line is what the reference reads in it. */
  lemma LineSim(c: Conn, raw: string, i: nat, req: Request)
    requires Sim(c, raw, i, req) && req.phase != Content && LineAt(raw, i)
    ensures var s := Scan(c);
            var j := NextLine(raw, i);
            var ref := ReadLine(req, i, LineText(raw, i));
            && s.status == LineOk && s.conn.start == i && s.conn.checked == j && AfterLine(s.conn, i)
            && s.conn.phase == c.phase
            && HeadCuts.Handled(s.conn).code == CodeFor(ref.outcome)
            && (ref.outcome != Malformed ==> Sim(HeadCuts.Handled(s.conn).conn, raw, j, ref.req))
            && (ref.outcome == HasBody <==> ref.req.phase == Content)
            && (ref.outcome == Incomplete || ref.outcome == Complete ==> ref.req.phase == Header)
            && (ref.outcome == Malformed || ref.outcome == Overlong ==>
                  HeadCuts.Handled(s.conn).conn.phase == req.phase)
  {
    SimFacts(c, raw, i, req);
    hide CStr, StrEnd, FirstOf, LineText, LineAt, Scan, ParseRequestLine, ParseHeaderLine, ReadLine, Sim, AfterLine,
         CodeFor;
    var j := NextLine(raw, i);
    ScanSim(c, raw, i);
    ScanToMid(c, raw, i, req);
    var d := Scanning(c, j);
    assert Scan(c).conn.(start := j) == d;
    ReadSim(d, raw, i, j, req, LineText(raw, i));
  }

  lemma SimFacts(c: Conn, raw: string, i: nat, req: Request)
    requires Sim(c, raw, i, req)
    ensures c.checked == i && c.start == i && SameTail(c.buf, raw, i) && (i > 0 ==> c.buf[i - 1] == NUL)
    ensures c.phase == req.phase && Valid(c)
  {
  }

  /** The whole head: the parser stops where the reference does, for the same
      reason, with the same request in hand.  Where a body follows, it goes on to
      read it from the byte after the blank line. */
  lemma {:induction false} HeadSim(c: Conn, raw: string, i: nat, req: Request, canOpen: string -> bool)
    returns (d: Conn)
    requires Sim(c, raw, i, req) && req.phase != Content
    ensures Valid(c)
    ensures var h := ReadHead(raw, i, req);
            && (h.outcome == Incomplete ==>
                  ProcessRead(c, canOpen) == Step(d, NoRequest) && Sim(d.(checked := h.next), raw, h.next, h.req)
                  && h.req.phase != Content)
            && (h.outcome == Complete ==>
                  ProcessRead(c, canOpen) == Step(d, Dispatch) && Sim(d, raw, h.next, h.req)
                  && h.req.phase == Header)
            && (h.outcome == HasBody ==>
                  Valid(d) && ProcessRead(c, canOpen) == ProcessRead(d, canOpen) && Sim(d, raw, h.next, h.req)
                  && h.req.phase == Content)
            && (h.outcome == Malformed ==> ProcessRead(c, canOpen) == Step(d, BadRequest) && d.phase != Content)
            && (h.outcome == Overlong ==> ProcessRead(c, canOpen) == Step(d, Undefined) && d.phase != Content)
    decreases |raw| - i
  {
    SimFacts(c, raw, i, req);
    hide CStr, StrEnd, FirstOf, LineText, LineAt, Scan, ReadLine, Sim, AfterLine, HeadCuts.Handled, Handle;
    if LineAt(raw, i) {
      var j := NextLine(raw, i);
      LineSim(c, raw, i, req);
      var s := Scan(c).conn;
      HeadCuts.HandleIsHandled(s, canOpen);
      var r := HeadCuts.Handled(s);
      var ref := ReadLine(req, i, LineText(raw, i));
      d := r.conn;
      if ref.outcome == Incomplete {
        d := HeadSim(r.conn, raw, j, ref.req, canOpen);
      }
    } else {
      ScanSim(c, raw, i);
      d := Scan(c).conn;
      Restart(c, d, raw, i, req);
    }
  }

  lemma Restart(c: Conn, d: Conn, raw: string, i: nat, req: Request)
    requires Sim(c, raw, i, req) && d == c.(checked := d.checked)
    ensures Sim(d.(checked := i), raw, i, req)
  {
    assert d.(checked := i) == c;
  }
}
