/** The incremental request parser of `HttpConn` (`parse_line`,
    `parse_request_line`, `parse_headers`, `parse_content`, `process_read`) as
    functions on its state.  The class in HttpConn.dfy runs the same steps in
    place and is proved equal to these functions.

    The buffer holds the bytes received so far, as the parser has left them:
    line ends and separators it has passed are NUL.  Pointers into it are offsets. */
module RequestHead {
  import opened Basics
  import opened CString
  import Multipart

  datatype Phase = RequestLine | Header | Content
  datatype Method = GET | POST
  datatype LineStatus = LineOk | LineBad | LineOpen

  /** `Dispatch` is `GET_REQUEST`: `process_read` calls `do_request`.  `Undefined`
      stands for behaviour C++ does not define: a copy past `m_boundary`, a write
      before the buffer, a signed overflow. */
  datatype Code = NoRequest | Dispatch | BadRequest | InternalError | Undefined

  datatype Ptr = Null | At(offset: nat) | Literal(text: string)
  datatype File = File(name: string, data: string)

  datatype Conn = Conn(
    buf: string, checked: nat, start: nat, phase: Phase,
    meth: Method, url: Ptr, version: Ptr, host: Ptr,
    linger: bool, contentLength: int, cookie: bool,
    multipart: bool, boundary: string,
    body: Ptr, uploadName: string, upload: Option<File>)

  datatype Step = Step(conn: Conn, code: Code)

  /** The state `init_parse_state` leaves. */
  const FRESH: Conn :=
    Conn("", 0, 0, RequestLine, GET, Null, Null, Null, false, 0, false, false, "", Null, "", None)

  predicate Valid(c: Conn) {
    c.start <= c.checked <= |c.buf|
  }

  /** `read_once`: received bytes go behind those already there. */
  function Receive(c: Conn, bytes: string): Conn {
    c.(buf := c.buf + bytes)
  }

  const EOL: set<char> := {CR, LF}

  function PutNul(b: string, i: nat): (r: string)
    requires i < |b|
    ensures |r| == |b| && forall k | 0 <= k < |b| :: r[k] == if k == i then NUL else b[k]
  {
    b[i := NUL]
  }

  // The line scanner.

  datatype Scanned = Scanned(conn: Conn, status: LineStatus)

  /** `parse_line`: moves the cursor to the next CR or LF and, when a whole line
      end is there, past it, writing NUL over both bytes. */
  function Scan(c: Conn): (r: Scanned)
    requires c.checked <= |c.buf|
    ensures c.checked <= r.conn.checked <= |c.buf| == |r.conn.buf|
    ensures r.status == LineOk ==> c.checked < r.conn.checked
    ensures r.conn == c.(buf := r.conn.buf, checked := r.conn.checked)
    ensures r.status == LineOk && c.start <= c.checked ==> AfterLine(r.conn, c.start)
  {
    ScanAt(c, FirstOf(c.buf, c.checked, EOL))
  }

  /** The end of the scan, with the cursor at `k`, the first CR or LF if there is one. */
  function ScanAt(c: Conn, k: nat): (r: Scanned)
    requires k <= |c.buf| && (k < |c.buf| ==> c.buf[k] in EOL)
    ensures k <= r.conn.checked <= |c.buf| == |r.conn.buf|
    ensures r.status == LineOk ==> k < r.conn.checked
    ensures r.conn == c.(buf := r.conn.buf, checked := r.conn.checked)
    ensures r.status == LineOk && c.start <= k ==> AfterLine(r.conn, c.start)
  {
    var b := c.buf;
    if k == |b| then Scanned(c.(checked := k), LineOpen)
    else if b[k] == CR then
      if k + 1 == |b| then Scanned(c.(checked := k), LineOpen)
      else if b[k + 1] == LF then
        Scanned(c.(buf := PutNul(PutNul(b, k), k + 1), checked := k + 2), LineOk)
      else Scanned(c.(checked := k), LineBad)
    else if k > 1 && b[k - 1] == CR then
      Scanned(c.(buf := PutNul(PutNul(b, k - 1), k), checked := k + 1), LineOk)
    else Scanned(c.(checked := k), LineBad)
  }

  /** What a completed scan leaves: NUL just before the cursor, and before that
      too unless the line that starts at `t` is empty. */
  predicate AfterLine(c: Conn, t: nat) {
    && t < c.checked <= |c.buf| && c.buf[c.checked - 1] == NUL
    && (t + 2 <= c.checked ==> c.buf[c.checked - 2] == NUL)
  }

  /** The C string at `t` ends inside the line. */
  lemma LineEndsInside(c: Conn, t: nat)
    requires AfterLine(c, t)
    ensures StrEnd(c.buf, t) < c.checked
    ensures StrEnd(c.buf, t) == t || StrEnd(c.buf, t) <= c.checked - 2
    ensures t + |CStr(c.buf, t)| == StrEnd(c.buf, t)
  {
  }

  // The request line.

  datatype Split =
    | NoTarget
    | BadMethod(p: nat)
    | NoVersion(m: Method, p: nat, q: nat)
    | BadVersion(m: Method, p: nat, q: nat, v: nat)
    | NoPath(m: Method, p: nat, v: nat)
    | BadPath(m: Method, p: nat, v: nat, u: nat)
    | Target(m: Method, p: nat, v: nat, u: nat)

  /** The cuts of a line of length `n` lie inside it; an accepted version takes its
      last eight bytes. */
  predicate SplitFits(x: Split, n: nat) {
    && (x.BadMethod? || x.NoVersion? ==> x.p < n)
    && (x.NoVersion? || x.BadVersion? ==> x.p < x.q <= n)
    && (x.BadVersion? || x.NoPath? || x.BadPath? || x.Target? ==> x.p < x.v < n)
    && (x.BadPath? || x.Target? ==> x.p < x.u < x.v)
    && (x.Target? ==> x.v + 9 == n)
  }

  /** Where `parse_request_line` cuts the C string `s`: the method ends at `p`,
      the target starts at `q` and ends at `v`, the path starts at `u`. */
  function SplitLine(s: string): (r: Split)
    ensures SplitFits(r, |s|)
    ensures r.Target? ==> s[r.u] == '/'
  {
    var p := FirstOf(s, 0, BLANK);
    if p == |s| then NoTarget
    else if EqNoCase(s[..p], "GET") then SplitTarget(s, GET, p)
    else if EqNoCase(s[..p], "POST") then SplitTarget(s, POST, p)
    else BadMethod(p)
  }

  /** The cuts behind a method that ends at `p`. */
  function SplitTarget(s: string, m: Method, p: nat): (r: Split)
    requires p < |s|
    ensures SplitFits(r, |s|) && (r.Target? ==> s[r.u] == '/')
    ensures !r.NoTarget? && !r.BadMethod? && r.m == m && r.p == p
  {
    var q := Span(s, p + 1, BLANK);
    var v := FirstOf(s, q, BLANK);
    if v == |s| then NoVersion(m, p, q)
    else if !EqNoCase(s[v + 1..], "HTTP/1.1") then BadVersion(m, p, q, v)
    else SplitPath(s, m, p, q, v)
  }

  /** The cuts in a target `s[q..v]` that an accepted version follows. */
  function SplitPath(s: string, m: Method, p: nat, q: nat, v: nat): (r: Split)
    requires p < q <= v && v + 9 == |s|
    ensures SplitFits(r, |s|) && (r.Target? ==> s[r.u] == '/')
    ensures (r.NoPath? || r.BadPath? || r.Target?) && r.m == m && r.p == p && r.v == v
  {
    var u := PathStart(s, q, v);
    if u == v then NoPath(m, p, v)
    else if s[u] != '/' then BadPath(m, p, v, u)
    else Target(m, p, v, u)
  }

  /** The start of the path in the target `s[q..v]`: after scheme and authority
      if the target is an absolute http URI, `v` if that has no path. */
  function PathStart(s: string, q: nat, v: nat): (u: nat)
    requires q <= v <= |s|
    ensures q <= u <= v
  {
    if PrefixNoCase(s[q..v], "http://") then FirstOf(s[..v], q + 7, {'/'}) else q
  }

  const INDEX: string := "index.html\0"

  /** `parse_request_line` on the line at `t`. */
  function ParseRequestLine(c: Conn, t: nat): (r: Step)
    requires AfterLine(c, t)
    ensures |r.conn.buf| == |c.buf|
    ensures r.conn == c.(buf := r.conn.buf, phase := r.conn.phase, meth := r.conn.meth,
                         url := r.conn.url, version := r.conn.version)
    ensures r.code == NoRequest || r.code == BadRequest
    ensures r.code == NoRequest ==> r.conn.phase == Header
  {
    LineEndsInside(c, t);
    var s := CStr(c.buf, t);
    Cuts(c, t, SplitLine(s), |s|)
  }

  /** The writes and assignments of `parse_request_line`, for the cuts `x`. */
  function Cuts(c: Conn, t: nat, x: Split, n: nat): (r: Step)
    requires SplitFits(x, n) && (n > 0 ==> t + n + 2 <= c.checked <= |c.buf|)
    ensures |r.conn.buf| == |c.buf|
    ensures r.conn == c.(buf := r.conn.buf, phase := r.conn.phase, meth := r.conn.meth,
                         url := r.conn.url, version := r.conn.version)
    ensures r.code == if x.Target? then NoRequest else BadRequest
    ensures r.conn.phase == if x.Target? then Header else c.phase
  {
    if x.Target? then Step(Accept(c, t, x.m, x.p, x.v, x.u), NoRequest)
    else Step(Refuse(c, t, x), BadRequest)
  }

  /** What a refused line leaves behind: the separators found so far are NUL. */
  function Refuse(c: Conn, t: nat, x: Split): (d: Conn)
    requires !x.Target?
    requires x.BadMethod? || x.NoVersion? ==> t + x.p < |c.buf|
    requires x.BadVersion? || x.NoPath? || x.BadPath? ==> x.p < x.v && t + x.v < |c.buf|
    ensures |d.buf| == |c.buf|
    ensures d == c.(buf := d.buf, meth := d.meth, url := d.url, version := d.version)
  {
    match x
    case NoTarget => c.(url := Null)
    case BadMethod(p) => c.(buf := PutNul(c.buf, t + p), url := At(t + p + 1))
    case NoVersion(m, p, q) => c.(buf := PutNul(c.buf, t + p), meth := m, url := At(t + q), version := Null)
    case BadVersion(m, p, q, v) => Separated(c, t, m, p, v, At(t + q))
    case NoPath(m, p, v) => Separated(c, t, m, p, v, Null)
    case BadPath(m, p, v, u) => Separated(c, t, m, p, v, At(t + u))
  }

  /** What an accepted line leaves behind: the path is a C string, and a lone "/"
      has become "/index.html". */
  function Accept(c: Conn, t: nat, m: Method, p: nat, v: nat, u: nat): (d: Conn)
    requires p < u < v && t + v < |c.buf| && (v == u + 1 ==> t + v + |INDEX| <= |c.buf|)
    ensures |d.buf| == |c.buf|
    ensures d == c.(buf := d.buf, phase := Header, meth := m, url := At(t + u), version := At(t + v + 1))
  {
    c.(buf := AcceptedBytes(c.buf, t, p, v, u), phase := Header, meth := m, url := At(t + u), version := At(t + v + 1))
  }

  /** The bytes of an accepted line: NUL after method and target, and
      "index.html" behind a lone "/". */
  function AcceptedBytes(b: string, t: nat, p: nat, v: nat, u: nat): (r: string)
    requires p < u < v && t + v < |b| && (v == u + 1 ==> t + v + |INDEX| <= |b|)
    ensures |r| == |b|
  {
    var cut := PutNul(PutNul(b, t + p), t + v);
    if v == u + 1 then Overwrite(cut, t + v, INDEX) else cut
  }

  /** Method, target and version as separate C strings. */
  function Separated(c: Conn, t: nat, m: Method, p: nat, v: nat, url: Ptr): (d: Conn)
    requires t + v < |c.buf| && p < v
    ensures |d.buf| == |c.buf|
    ensures d == c.(buf := d.buf, meth := m, url := url, version := At(t + v + 1))
  {
    c.(buf := PutNul(PutNul(c.buf, t + p), t + v), meth := m, url := url, version := At(t + v + 1))
  }

  // Header lines.

  datatype Field =
    | Blank
    | KeepAlive
    | Length(n: int)
    | HostAt(k: nat)
    | LoginCookie
    | FormData
    | Boundary(mark: string)
    | Ignored

  /** What `parse_headers` reads in the C string `s`. */
  function FieldOf(s: string): (f: Field)
    ensures f.HostAt? ==> f.k <= |s|
    ensures f.Blank? <==> s == ""
  {
    if s == "" then Blank else NamedField(s)
  }

  function NamedField(s: string): (f: Field)
    ensures f.HostAt? ==> f.k <= |s|
    ensures !f.Blank?
  {
    if PrefixNoCase(s, "Connection:") then
      if EqNoCase(s[Span(s, 11, BLANK)..], "keep-alive") then KeepAlive else Ignored
    else if PrefixNoCase(s, "Content-Length:") then
      Length(ToInt(Atol(s[Span(s, 15, BLANK)..])))
    else if PrefixNoCase(s, "Host:") then HostAt(Span(s, 5, BLANK))
    else if PrefixNoCase(s, "Cookie:") then
      if Find(s[Span(s, 7, BLANK)..], "is_login=true").Some? then LoginCookie else Ignored
    else if PrefixNoCase(s, "Content-Type:") then
      TypeField(s[Span(s, 13, BLANK)..])
    else Ignored
  }

  /** The field a Content-Type value states. */
  function TypeField(v: string): (f: Field)
    ensures f.FormData? || f.Boundary? || f.Ignored?
  {
    if !PrefixNoCase(v, "multipart/form-data") then Ignored
    else
      match Find(v, "boundary=")
      case None => FormData
      case Some(k) => Boundary(v[k + |"boundary="|..])
  }

  /** `parse_headers` on the line at `t`. */
  function ParseHeaderLine(c: Conn, t: nat): (r: Step)
    requires t <= |c.buf|
    ensures r.conn.buf == c.buf && r.conn.checked == c.checked && r.conn.start == c.start
    ensures r.code == NoRequest || r.code == Dispatch || r.code == Undefined
    ensures r.conn.phase != c.phase ==> r.conn.phase == Content && r.code == NoRequest
  {
    Apply(c, t, FieldOf(CStr(c.buf, t)))
  }

  /** The assignments of `parse_headers` for one field. */
  function Apply(c: Conn, t: nat, f: Field): (r: Step)
    ensures r.conn.buf == c.buf && r.conn.checked == c.checked && r.conn.start == c.start
    ensures r.code == NoRequest || r.code == Dispatch || r.code == Undefined
    ensures r.conn.phase != c.phase ==> r.conn.phase == Content && r.code == NoRequest
  {
    match f
    case Blank =>
      if c.contentLength != 0 then Step(c.(phase := Content), NoRequest) else Step(c, Dispatch)
    case KeepAlive => Step(c.(linger := true), NoRequest)
    case Length(n) => Step(c.(contentLength := n), NoRequest)
    case HostAt(k) => Step(c.(host := At(t + k)), NoRequest)
    case LoginCookie => Step(c.(cookie := true), NoRequest)
    case FormData => Step(c.(multipart := true), NoRequest)
    case Boundary(mark) =>
      if |mark| >= Multipart.BOUNDARY_MAX then Step(c.(multipart := true), Undefined)
      else Step(c.(multipart := true, boundary := mark), NoRequest)
    case Ignored => Step(c, NoRequest)
  }

  // The body.

  const WELCOME: string := "/welcome.html"

  /** `parse_content` on the body at `t`.  `canOpen` says whether the file for an
      upload name can be opened for writing. */
  function ParseContent(c: Conn, t: nat, canOpen: string -> bool): (r: Step)
    requires t <= c.checked <= |c.buf|
    ensures |r.conn.buf| == |c.buf| && r.conn.checked == c.checked && r.conn.start == c.start
    ensures r.conn.phase == c.phase
  {
    var n := c.contentLength;
    if n + c.checked >= 0x8000_0000 then Step(c, Undefined)
    else if |c.buf| < n + c.checked then Step(c, NoRequest)
    else if t + n < 0 then Step(c, Undefined)
    else
      var d := c.(buf := if t + n < |c.buf| then PutNul(c.buf, t + n) else c.buf);
      if c.multipart then ParseMultipart(d, t, canOpen) else Step(d.(body := At(t)), Dispatch)
  }

  /** `parse_multipart_content` on the body at `t`. */
  function ParseMultipart(d: Conn, t: nat, canOpen: string -> bool): (r: Step)
    requires t <= |d.buf| && t + d.contentLength <= |d.buf|
    ensures r.conn == d.(uploadName := r.conn.uploadName, upload := r.conn.upload, url := r.conn.url)
    ensures r.code == BadRequest || r.code == InternalError || r.code == Dispatch
  {
    match Multipart.ParsePart(d.buf, t, t + d.contentLength, d.boundary)
    case Rejected(None) => Step(d, BadRequest)
    case Rejected(Some(name)) => Step(d.(uploadName := name), BadRequest)
    case Found(name, lo, hi) =>
      if !canOpen(name) then Step(d.(uploadName := name), InternalError)
      else Step(d.(uploadName := name, upload := Some(File(name, d.buf[lo..hi])), url := Literal(WELCOME)), Dispatch)
  }

  // The driver loop.

  /** The loop of `process_read`, entered at its condition with `status`. */
  function Run(c: Conn, status: LineStatus, canOpen: string -> bool): (r: Step)
    requires Valid(c)
    ensures Valid(r.conn) && |r.conn.buf| == |c.buf| && c.checked <= r.conn.checked
    ensures c.phase == Content ==> r.conn.phase == Content
    decreases |c.buf| - c.checked, if c.phase == Content && status == LineOk then 2 else 0
  {
    if c.phase == Content && status == LineOk then
      Handle(c, canOpen)
    else
      var s := Scan(c);
      if s.status == LineOk then Handle(s.conn, canOpen) else Step(s.conn, NoRequest)
  }

  /** One pass through the body of that loop, and what follows. */
  function Handle(c: Conn, canOpen: string -> bool): (r: Step)
    requires Valid(c)
    requires c.phase == Content || AfterLine(c, c.start)
    ensures Valid(r.conn) && |r.conn.buf| == |c.buf| && c.checked <= r.conn.checked
    ensures c.phase == Content ==> r.conn.phase == Content
    decreases |c.buf| - c.checked, if c.phase == Content then 1 else 3
  {
    var t := c.start;
    var d := c.(start := c.checked);
    match c.phase
    case RequestLine =>
      var r := ParseRequestLine(d, t);
      if r.code == BadRequest then r else Run(r.conn, LineOk, canOpen)
    case Header =>
      var r := ParseHeaderLine(d, t);
      if r.code == NoRequest then Run(r.conn, LineOk, canOpen) else r
    case Content =>
      var r := ParseContent(d, t, canOpen);
      if r.code == Dispatch || r.code == Undefined then r else Run(r.conn, LineOpen, canOpen)
  }

  /** `process_read`. */
  function ProcessRead(c: Conn, canOpen: string -> bool): (r: Step)
    requires Valid(c)
    ensures Valid(r.conn) && |r.conn.buf| == |c.buf| && c.checked <= r.conn.checked
  {
    Run(c, LineOk, canOpen)
  }
}
