/** Requests with a body, for every way of cutting a connection's bytes into reads,
    whatever follows the body.  Body bytes that a read brings too early meet the line
    scanner, which steps over them; the body is then looked for elsewhere. */
module SplitBodies {
  import opened Basics
  import opened CString
  import opened RequestHead
  import opened HeadCuts
  import opened HeadMeaning
  import opened Requests
  import Multipart

  // Where the scanner goes.  `w` are the bytes received behind the head.

  /** Where the lines that start at `c` and are complete in `w` end. */
  function LinesEnd(w: string, c: nat): (e: nat)
    requires c <= |w|
    ensures c <= e <= |w| && (e == c <==> !LineAt(w, c))
    decreases |w| - c
  {
    if LineAt(w, c) then LinesEnd(w, NextLine(w, c)) else c
  }

  /** Where the scanner stops: at a CR or LF that completes no line, or at the end. */
  function Stop(w: string, c: nat): (k: nat)
    requires c <= |w|
    ensures LinesEnd(w, c) <= k <= |w|
  {
    FirstOf(w, LinesEnd(w, c), EOL)
  }

  /** The reads behind a head that announces `n` bytes.  `process_read` takes the body to
      be complete when `n` bytes are there behind the cursor `c`; then it starts at `s`,
      where the cursor was one pass before.  None if no read makes it complete. */
  function BodyRun(w: string, s: nat, c: nat, pieces: seq<string>, n: nat): (at: Option<nat>)
    requires s <= c <= |w|
    decreases |pieces|
  {
    if pieces == [] then None
    else
      var v := w + pieces[0];
      if |v| >= n + c then Some(s) else BodyRun(v, LinesEnd(v, c), Stop(v, c), pieces[1..], n)
  }

  // The parser follows it.

  /** The head is read, the blank line is the last thing received, a body of `n` bytes
      is due. */
  predicate AtBody(d: Conn, n: nat) {
    && d.phase == Content && d.start == d.checked == |d.buf| && d.contentLength == n > 0
    && (d.checked > 0 ==> d.buf[d.checked - 1] == NUL)
  }

  /** `e` is `d` after `w` was received and scanned: the cursor is at `c`, the line start
      at `s`, and from there on nothing was overwritten. */
  predicate Behind(e: Conn, d: Conn, w: string, s: nat, c: nat) {
    && s <= c <= |w| && |e.buf| == |d.buf| + |w|
    && e == d.(buf := e.buf, checked := |d.buf| + c, start := |d.buf| + s)
    && (forall k | 0 <= k < |d.buf| :: e.buf[k] == d.buf[k])
    && (forall k | s <= k < |w| :: e.buf[|d.buf| + k] == w[k])
    && (|d.buf| + c > 0 ==> e.buf[|d.buf| + c - 1] != CR)
  }

  lemma BehindMore(e: Conn, d: Conn, w: string, s: nat, c: nat, x: string)
    requires Behind(e, d, w, s, c)
    ensures Behind(Receive(e, x), d, w + x, s, c)
  {
  }

  lemma ScanFound(e: Conn, d: Conn, w: string, s: nat, c: nat)
    requires Behind(e, d, w, s, c)
    ensures FirstOf(e.buf, e.checked, EOL) == |d.buf| + FirstOf(w, c, EOL)
  {
    var k := FirstOf(w, c, EOL);
    assert forall j | c <= j < |w| :: e.buf[|d.buf| + j] == w[j];
    forall j | e.checked <= j < |d.buf| + k ensures e.buf[j] !in EOL {
      assert e.buf[|d.buf| + (j - |d.buf|)] == w[j - |d.buf|];
    }
    FirstOfUnique(e.buf, e.checked, EOL, |d.buf| + k);
  }

  /** A line of the body is stepped over; the parser then looks for the body behind it. */
  lemma ScanOver(e: Conn, d: Conn, w: string, s: nat, c: nat)
    requires Behind(e, d, w, s, c) && LineAt(w, c)
    ensures Scan(e).status == LineOk
    ensures var f := Scan(e).conn; Behind(f.(start := f.checked), d, w, NextLine(w, c), NextLine(w, c))
  {
    ScanFound(e, d, w, s, c);
    var k := FirstOf(w, c, EOL);
    assert e.buf[|d.buf| + k] == CR && e.buf[|d.buf| + (k + 1)] == LF;
  }

  lemma ScanStops(e: Conn, d: Conn, w: string, c: nat)
    requires Behind(e, d, w, c, c) && !LineAt(w, c)
    ensures Scan(e).status != LineOk && Behind(Scan(e).conn, d, w, c, FirstOf(w, c, EOL))
  {
    hide Scan;
    ScanFound(e, d, w, c, c);
    var k := FirstOf(w, c, EOL);
    assert k < |w| ==> e.buf[|d.buf| + k] == w[k];
    assert k + 1 < |w| ==> e.buf[|d.buf| + (k + 1)] == w[k + 1];
    assert k > c ==> e.buf[|d.buf| + (k - 1)] == w[k - 1] != CR;
    hide Behind;
    BehindValid(e, d, w, c, c);
    StopsAt(e, |d.buf| + k);
    BehindOn(e, d, w, c, k);
  }

  /** No line ends at the first CR or LF behind the cursor. */
  lemma StopsAt(e: Conn, k: nat)
    requires e.checked <= |e.buf| && k == FirstOf(e.buf, e.checked, EOL)
    requires k > 0 ==> e.buf[k - 1] != CR
    requires k + 1 < |e.buf| ==> !(e.buf[k] == CR && e.buf[k + 1] == LF)
    ensures Scan(e).status != LineOk && Scan(e).conn == e.(checked := k)
  {
    hide FirstOf, PutNul;
  }

  lemma BehindOn(e: Conn, d: Conn, w: string, c: nat, k: nat)
    requires Behind(e, d, w, c, c) && c <= k <= |w| && (k > c ==> w[k - 1] != CR)
    ensures Behind(e.(checked := |d.buf| + k), d, w, c, k)
  {
    assert k > c ==> e.buf[|d.buf| + (k - 1)] == w[k - 1];
  }

  /** The rest of a pass that does not find the body complete. */
  lemma {:induction false} ScansOn(e: Conn, d: Conn, w: string, c: nat, n: nat, canOpen: string -> bool)
    requires AtBody(d, n) && Behind(e, d, w, c, c) && |w| < n + c && |d.buf| + |w| + n < 0x8000_0000
    ensures var r := Run(e, LineOpen, canOpen);
            r.code == NoRequest && Behind(r.conn, d, w, LinesEnd(w, c), Stop(w, c))
    decreases |w| - c
  {
    hide Scan, LineAt, NextLine, Behind;
    BehindValid(e, d, w, c, c);
    if LineAt(w, c) {
      ScanOver(e, d, w, c, c);
      var f := Scan(e).conn;
      var g := f.(start := f.checked);
      BehindValid(g, d, w, NextLine(w, c), NextLine(w, c));
      IncompleteStep(f, g, n, canOpen);
      ScansOn(g, d, w, NextLine(w, c), n, canOpen);
    } else {
      ScanStops(e, d, w, c);
    }
  }

  lemma BehindValid(e: Conn, d: Conn, w: string, s: nat, c: nat)
    requires Behind(e, d, w, s, c)
    ensures Valid(e) && e.phase == d.phase && e.contentLength == d.contentLength && e.multipart == d.multipart
    ensures s <= c <= |w| && e.checked == |d.buf| + c && e.start == |d.buf| + s && |e.buf| == |d.buf| + |w|
  {
  }

  lemma IncompleteStep(f: Conn, g: Conn, n: nat, canOpen: string -> bool)
    requires Valid(f) && f.phase == Content && f.contentLength == n && g == f.(start := f.checked)
    requires |f.buf| < n + f.checked && |f.buf| + n < 0x8000_0000
    ensures Handle(f, canOpen) == Run(g, LineOpen, canOpen)
  {
    hide Run;
  }

  /** A read that does not complete the body. */
  lemma EarlyRead(e: Conn, d: Conn, w: string, s: nat, c: nat, n: nat, canOpen: string -> bool)
    requires AtBody(d, n) && Behind(e, d, w, s, c) && |w| < n + c && |d.buf| + |w| + n < 0x8000_0000
    ensures var r := ProcessRead(e, canOpen);
            r.code == NoRequest && Behind(r.conn, d, w, LinesEnd(w, c), Stop(w, c))
  {
    hide Run, LinesEnd, Stop, Behind;
    BehindValid(e, d, w, s, c);
    ContentStep(e, canOpen);
    BehindMoved(e, d, w, s, c);
    ScansOn(e.(start := e.checked), d, w, c, n, canOpen);
  }

  lemma BehindMoved(e: Conn, d: Conn, w: string, s: nat, c: nat)
    requires Behind(e, d, w, s, c)
    ensures Behind(e.(start := e.checked), d, w, c, c)
  {
  }

  /** What the handler of a complete body finds. */
  function Given(e: Conn, n: nat): (f: Conn)
    requires e.start <= e.checked && e.checked + n <= |e.buf|
  {
    var t := e.start + n;
    e.(start := e.checked, buf := if t < |e.buf| then PutNul(e.buf, t) else e.buf)
  }

  lemma GivenBytes(e: Conn, d: Conn, w: string, s: nat, c: nat, n: nat)
    requires Behind(e, d, w, s, c) && |w| >= n + c
    ensures var f := Given(e, n);
            && f == d.(buf := f.buf, checked := f.checked, start := f.start) && f.checked == e.checked
            && |f.buf| == |d.buf| + |w| && (forall k | 0 <= k < |d.buf| :: f.buf[k] == d.buf[k])
            && f.buf[|d.buf| + s..|d.buf| + s + n] == w[s..s + n]
            && (|d.buf| + s + n < |f.buf| ==> f.buf[|d.buf| + s + n] == NUL)
  {
    var f := Given(e, n);
    assert forall k | s <= k < s + n :: f.buf[|d.buf| + k] == w[k];
    SliceIs(f.buf, |d.buf|, w, s, n);
  }

  /** A read that completes the body: the handler gets the bytes from `start` on. */
  lemma LastRead(e: Conn, n: nat, canOpen: string -> bool)
    requires Valid(e) && e.phase == Content && e.contentLength == n > 0 && n + e.checked <= |e.buf|
    requires |e.buf| + n < 0x8000_0000
    ensures !e.multipart ==> ProcessRead(e, canOpen) == Step(Given(e, n).(body := At(e.start)), Dispatch)
    ensures e.multipart ==>
              var r := ParseMultipart(Given(e, n), e.start, canOpen);
              && (r.code == Dispatch ==> ProcessRead(e, canOpen) == r)
              && (r.code != Dispatch && |e.buf| == n + e.checked ==> ProcessRead(e, canOpen).code == NoRequest)
  {
    hide Run, ParseMultipart, ProcessRead, PutNul;
    ContentStep(e, canOpen);
    var r := ParseContent(e.(start := e.checked), e.start, canOpen);
    assert r == if e.multipart then ParseMultipart(Given(e, n), e.start, canOpen)
                else Step(Given(e, n).(body := At(e.start)), Dispatch);
    if |e.buf| == n + e.checked && r.code != Dispatch {
      BodyStalls(r.conn, canOpen);
    }
  }

  lemma SliceIs(b: string, o: nat, w: string, s: nat, n: nat)
    requires s + n <= |w| && o + |w| <= |b| && forall k | s <= k < s + n :: b[o + k] == w[k]
    ensures b[o + s..o + s + n] == w[s..s + n]
  {
    var x, y := b[o + s..o + s + n], w[s..s + n];
    assert forall j | 0 <= j < n :: x[j] == b[o + (s + j)] && y[j] == w[s + j];
  }

  /** What the reads after one `process_read` give. */
  function FeedOn(r: Step, rest: seq<string>, canOpen: string -> bool): Step
    requires Valid(r.conn)
  {
    if r.code == NoRequest && rest != [] then Feed(r.conn, rest, canOpen)
    else Step(Receive(r.conn, Flatten(rest)), r.code)
  }

  lemma FeedFirst(c: Conn, chunks: seq<string>, canOpen: string -> bool)
    requires Valid(c) && chunks != []
    ensures Feed(c, chunks, canOpen) == FeedOn(ProcessRead(Receive(c, chunks[0]), canOpen), chunks[1..], canOpen)
  {
    hide ProcessRead;
  }

  /** A run that never completes the body is never answered. */
  lemma {:induction false} NeverComplete(e: Conn, d: Conn, w: string, s: nat, c: nat, pieces: seq<string>, n: nat,
                                         canOpen: string -> bool)
    requires AtBody(d, n) && Behind(e, d, w, s, c) && BodyRun(w, s, c, pieces, n) == None
    requires |d.buf| + |w| + |Flatten(pieces)| + n < 0x8000_0000
    ensures Valid(e) && Feed(e, pieces, canOpen).code == NoRequest
    decreases |pieces|
  {
    BehindValid(e, d, w, s, c);
    if pieces != [] {
      hide ProcessRead, Behind, LinesEnd, Stop;
      var v := w + pieces[0];
      BehindMore(e, d, w, s, c, pieces[0]);
      EarlyRead(Receive(e, pieces[0]), d, v, s, c, n, canOpen);
      var r := ProcessRead(Receive(e, pieces[0]), canOpen);
      NeverComplete(r.conn, d, v, LinesEnd(v, c), Stop(v, c), pieces[1..], n, canOpen);
    }
  }

  /** The parser at the read that completes a body found at `at`: `v` came behind the head,
      `rest` is still to come, and then the outcome is `feed`. */
  predicate Reaches(g: Conn, d: Conn, v: string, at: nat, k: nat, n: nat, rest: seq<string>, all: string, feed: Step,
                    canOpen: string -> bool)
  {
    && Behind(g, d, v, at, k) && |v| >= n + k && v + Flatten(rest) == all
    && Valid(g) && feed == FeedOn(ProcessRead(g, canOpen), rest, canOpen)
  }

  /** A run that completes the body comes to that read. */
  lemma {:induction false} Completes(e: Conn, d: Conn, w: string, s: nat, c: nat, pieces: seq<string>, n: nat,
                                     canOpen: string -> bool)
    returns (g: Conn, v: string, k: nat, rest: seq<string>)
    requires AtBody(d, n) && Behind(e, d, w, s, c) && BodyRun(w, s, c, pieces, n).Some?
    requires |d.buf| + |w| + |Flatten(pieces)| + n < 0x8000_0000
    ensures Valid(e)
    ensures Reaches(g, d, v, BodyRun(w, s, c, pieces, n).value, k, n, rest,
                    w + Flatten(pieces), Feed(e, pieces, canOpen), canOpen)
    ensures |rest| < |pieces| && rest == pieces[|pieces| - |rest|..]
    decreases |pieces|
  {
    BehindValid(e, d, w, s, c);
    RunOn(w, s, c, pieces, n);
    v, k, rest, g := w + pieces[0], c, pieces[1..], Receive(e, pieces[0]);
    assert |v| >= n + c && Behind(g, d, v, s, k) && Valid(g) ==>
             Reaches(g, d, v, s, k, n, rest, v + Flatten(rest),
                     FeedOn(ProcessRead(g, canOpen), rest, canOpen), canOpen);
    hide *;
    BehindMore(e, d, w, s, c, pieces[0]);
    BehindValid(g, d, v, s, c);
    FeedFirst(e, pieces, canOpen);
    FlattenOn(w, pieces);
    if |v| < n + c {
      EarlyRead(g, d, v, s, c, n, canOpen);
      var r := ProcessRead(g, canOpen);
      FeedEarly(r, rest, canOpen);
      g, v, k, rest := Completes(r.conn, d, v, LinesEnd(v, c), Stop(v, c), rest, n, canOpen);
    }
  }

  lemma RunOn(w: string, s: nat, c: nat, pieces: seq<string>, n: nat)
    requires s <= c <= |w| && BodyRun(w, s, c, pieces, n).Some?
    ensures pieces != []
    ensures var v := w + pieces[0];
            BodyRun(w, s, c, pieces, n)
            == if |v| >= n + c then Some(s) else BodyRun(v, LinesEnd(v, c), Stop(v, c), pieces[1..], n)
    ensures var v := w + pieces[0];
            |v| < n + c ==> pieces[1..] != []
  {
    hide LinesEnd, Stop;
  }

  lemma FlattenOn(w: string, pieces: seq<string>)
    requires pieces != []
    ensures (w + pieces[0]) + Flatten(pieces[1..]) == w + Flatten(pieces)
    ensures |w| + |Flatten(pieces)| == |w + pieces[0]| + |Flatten(pieces[1..])|
  {
    Assoc(w, pieces[0], Flatten(pieces[1..]));
  }

  lemma FeedEarly(r: Step, rest: seq<string>, canOpen: string -> bool)
    requires Valid(r.conn) && r.code == NoRequest && rest != []
    ensures FeedOn(r, rest, canOpen) == Feed(r.conn, rest, canOpen)
  {
  }

  /** A form: nothing follows but the bytes behind it. */
  lemma FormRun(d: Conn, pieces: seq<string>, n: nat, canOpen: string -> bool)
    requires AtBody(d, n) && !d.multipart && |d.buf| + |Flatten(pieces)| + n < 0x8000_0000
    ensures var run := BodyRun("", 0, 0, pieces, n);
            var r := Feed(d, pieces, canOpen);
            && r.code == (if run.None? then NoRequest else Dispatch)
            && (run.Some? ==> FormFound(r.conn, d, Flatten(pieces), run.value, n))
  {
    hide Feed, ProcessRead, BodyRun, Flatten;
    assert Behind(d, d, "", 0, 0);
    if BodyRun("", 0, 0, pieces, n).None? {
      NeverComplete(d, d, "", 0, 0, pieces, n, canOpen);
    } else {
      var at := BodyRun("", 0, 0, pieces, n).value;
      var g, v, k, rest := Completes(d, d, "", 0, 0, pieces, n, canOpen);
      assert "" + Flatten(pieces) == Flatten(pieces);
      FormRead(g, d, v, at, k, rest, n, canOpen);
    }
  }

  /** `do_request` finds at `m_string` the `n` bytes that came `at` bytes behind the head. */
  predicate FormFound(c: Conn, d: Conn, w: string, at: nat, n: nat) {
    && c == d.(buf := c.buf, checked := c.checked, start := c.start, body := At(|d.buf| + at))
    && at + n <= |w| && |c.buf| == |d.buf| + |w|
    && (forall k | 0 <= k < |d.buf| :: c.buf[k] == d.buf[k])
    && c.buf[|d.buf| + at..|d.buf| + at + n] == w[at..at + n]
  }

  lemma FormRead(g: Conn, d: Conn, v: string, at: nat, k: nat, rest: seq<string>, n: nat, canOpen: string -> bool)
    requires AtBody(d, n) && !d.multipart && Behind(g, d, v, at, k) && |v| >= n + k
    requires |d.buf| + |v| + n < 0x8000_0000
    ensures Valid(g)
    ensures var r := FeedOn(ProcessRead(g, canOpen), rest, canOpen);
            r.code == Dispatch && FormFound(r.conn, d, v + Flatten(rest), at, n)
  {
    hide ProcessRead, Feed, Flatten, Given, Behind, FormFound;
    BehindValid(g, d, v, at, k);
    LastRead(g, n, canOpen);
    GivenBytes(g, d, v, at, k, n);
    FoundMore(Given(g, n), d, v, at, n, Flatten(rest));
  }

  lemma FoundMore(f: Conn, d: Conn, v: string, at: nat, n: nat, more: string)
    requires f == d.(buf := f.buf, checked := f.checked, start := f.start) && at + n <= |v|
    requires |f.buf| == |d.buf| + |v| && (forall k | 0 <= k < |d.buf| :: f.buf[k] == d.buf[k])
    requires f.buf[|d.buf| + at..|d.buf| + at + n] == v[at..at + n]
    ensures FormFound(Receive(f.(body := At(|d.buf| + at)), more), d, v + more, at, n)
  {
    var b, o := f.buf, |d.buf| + at;
    assert (b + more)[o..o + n] == b[o..o + n] && (v + more)[at..at + n] == v[at..at + n];
  }

  /** The file a body holds, if it holds one that can be opened. */
  function Storable(body: string, boundary: string, canOpen: string -> bool): Option<File> {
    match Multipart.ParsePart(body, 0, |body|, boundary)
    case Rejected(_) => None
    case Found(name, lo, hi) => if canOpen(name) then Some(File(name, body[lo..hi])) else None
  }

  /** The part at `o` in a buffer where a NUL ends the body is that of the body alone. */
  lemma PartAlone(b: string, o: nat, body: string, boundary: string)
    requires o + |body| <= |b| && b[o..o + |body|] == body && (o + |body| < |b| ==> b[o + |body|] == NUL)
    ensures var p := Multipart.ParsePart(b, o, o + |body|, boundary);
            match Multipart.ParsePart(body, 0, |body|, boundary)
            case Rejected(seen) => p == Multipart.Rejected(seen)
            case Found(name, lo, hi) => p == Multipart.Found(name, o + lo, o + hi) && b[o + lo..o + hi] == body[lo..hi]
  {
    hide Multipart.ParseHeader, Find;
    CStrAlone(b, o, body);
    var h := Multipart.ParseHeader(CStr(body, 0));
    if h.Header? && h.data <= |body| {
      SliceAlone(b, o, body, h.data, |body|);
      var f := Find(body[h.data..|body|], Multipart.Delimiter(boundary));
      if f.Some? {
        SliceAlone(b, o, body, h.data, h.data + f.value);
      }
    }
  }

  lemma SliceAlone(b: string, o: nat, body: string, lo: nat, hi: nat)
    requires o + |body| <= |b| && b[o..o + |body|] == body && lo <= hi <= |body|
    ensures b[o + lo..o + hi] == body[lo..hi]
  {
    var x, y := b[o + lo..o + hi], body[lo..hi];
    assert forall j | 0 <= j < hi - lo :: x[j] == b[o..o + |body|][lo + j] && y[j] == body[lo + j];
    assert x == y;
  }

  lemma CStrAlone(b: string, o: nat, body: string)
    requires o + |body| <= |b| && b[o..o + |body|] == body && (o + |body| < |b| ==> b[o + |body|] == NUL)
    ensures CStr(b, o) == CStr(body, 0)
  {
    var k := FirstOf(body, 0, {NUL});
    forall j | o <= j < o + k ensures b[j] != NUL {
      assert b[j] == b[o..o + |body|][j - o];
    }
    assert k < |body| ==> b[o + k] == b[o..o + |body|][k];
    FirstOfUnique(b, o, {NUL}, o + k);
    SliceAlone(b, o, body, 0, k);
  }

  /** An upload: stored if the body the parser takes holds a file; if it holds none, and
      nothing follows, there is no answer. */
  lemma UploadRun(d: Conn, pieces: seq<string>, n: nat, canOpen: string -> bool)
    requires AtBody(d, n) && d.multipart && |d.buf| + |Flatten(pieces)| + n < 0x8000_0000
    ensures var run := BodyRun("", 0, 0, pieces, n);
            var r := Feed(d, pieces, canOpen);
            && (run.None? ==> r.code == NoRequest)
            && (run.Some? ==>
                  && run.value + n <= |Flatten(pieces)|
                  && var file := Storable(Flatten(pieces)[run.value..run.value + n], d.boundary, canOpen);
                     && (file.Some? ==> r.code == Dispatch && r.conn.upload == file
                                        && r.conn.url == Literal(WELCOME) && r.conn.cookie == d.cookie)
                     && (file.None? && |Flatten(pieces)| == n && pieces[|pieces| - 1] != "" ==> r.code == NoRequest))
  {
    hide Feed, ProcessRead, BodyRun, Storable, Flatten;
    assert Behind(d, d, "", 0, 0);
    hide Behind;
    if BodyRun("", 0, 0, pieces, n).None? {
      NeverComplete(d, d, "", 0, 0, pieces, n, canOpen);
    } else {
      var at := BodyRun("", 0, 0, pieces, n).value;
      var g, v, k, rest := Completes(d, d, "", 0, 0, pieces, n, canOpen);
      EmptyFront(Flatten(pieces));
      BehindValid(g, d, v, at, k);
      SliceFront(v, Flatten(rest), at, n);
      UploadRead(g, d, v, at, k, n, canOpen);
      if |Flatten(pieces)| == n && pieces[|pieces| - 1] != "" {
        NothingLeft(rest);
      }
    }
  }

  lemma EmptyFront(s: string)
    ensures "" + s == s
  {
  }

  lemma SliceFront(v: string, more: string, at: nat, n: nat)
    requires at + n <= |v|
    ensures (v + more)[at..at + n] == v[at..at + n]
  {
  }

  lemma {:induction false} NothingLeft(rest: seq<string>)
    requires Flatten(rest) == ""
    ensures rest == [] || rest[|rest| - 1] == ""
  {
    if rest != [] {
      assert Flatten(rest) == rest[0] + Flatten(rest[1..]);
      NothingLeft(rest[1..]);
    }
  }

  lemma UploadRead(g: Conn, d: Conn, v: string, at: nat, k: nat, n: nat, canOpen: string -> bool)
    requires AtBody(d, n) && d.multipart && Behind(g, d, v, at, k) && |v| >= n + k
    requires |d.buf| + |v| + n < 0x8000_0000
    ensures Valid(g)
    ensures var file := Storable(v[at..at + n], d.boundary, canOpen);
            var r := ProcessRead(g, canOpen);
            && (file.Some? ==> r.code == Dispatch && r.conn.upload == file
                               && r.conn.url == Literal(WELCOME) && r.conn.cookie == d.cookie)
            && (file.None? && |v| == n ==> r.code == NoRequest)
  {
    hide ProcessRead, Given, Multipart.ParsePart;
    BehindValid(g, d, v, at, k);
    LastRead(g, n, canOpen);
    GivenBytes(g, d, v, at, k, n);
    PartAlone(Given(g, n).buf, g.start, v[at..at + n], d.boundary);
  }

  // From the first byte of the request.

  /** The parser as it enters the body, if what it holds takes it there. */
  function Entered(c: Conn): (d: Option<Conn>)
    requires Valid(c) && c.phase != Content
    ensures d.Some? ==> Valid(d.value) && d.value.phase == Content
    decreases |c.buf| - c.checked
  {
    var s := Scan(c);
    if s.status != LineOk then None
    else
      var r := Handled(s.conn);
      if r.code != NoRequest then None
      else if r.conn.phase == Content then Some(r.conn)
      else Entered(r.conn)
  }

  lemma {:induction false} EnteredRuns(c: Conn, canOpen: string -> bool)
    requires Valid(c) && c.phase != Content && Entered(c).Some?
    ensures ProcessRead(c, canOpen) == ProcessRead(Entered(c).value, canOpen)
    decreases |c.buf| - c.checked
  {
    hide Scan, Handled, Handle;
    var s := Scan(c);
    HandleIsHandled(s.conn, canOpen);
    var r := Handled(s.conn);
    if r.conn.phase != Content {
      EnteredRuns(r.conn, canOpen);
    }
  }

  lemma {:induction false} EnteredSim(c: Conn, raw: string, i: nat, req: Request)
    requires Sim(c, raw, i, req) && req.phase != Content && ReadHead(raw, i, req).outcome == HasBody
    ensures Valid(c) && c.phase != Content && Entered(c).Some?
    ensures var h := ReadHead(raw, i, req); Sim(Entered(c).value, raw, h.next, h.req)
    decreases |raw| - i
  {
    SimFacts(c, raw, i, req);
    hide CStr, StrEnd, FirstOf, LineText, LineAt, Scan, ReadLine, Sim, AfterLine, HeadCuts.Handled, Handle;
    var j := NextLine(raw, i);
    LineSim(c, raw, i, req);
    var r := Handled(Scan(c).conn);
    var ref := ReadLine(req, i, LineText(raw, i));
    SimFacts(r.conn, raw, j, ref.req);
    if ref.outcome == Incomplete {
      EnteredSim(r.conn, raw, j, ref.req);
    }
  }

  lemma LineExtends(p: string, q: string, i: nat)
    requires i <= |p|
    ensures LineAt(p, i) ==>
              && LineAt(p + q, i) && NextLine(p + q, i) == NextLine(p, i)
              && LineText(p + q, i) == LineText(p, i)
    ensures LineAt(p + q, i) && NextLine(p + q, i) <= |p| ==> LineAt(p, i)
  {
    FirstOfExtend(p, q, i, EOL);
    var k := FirstOf(p + q, i, EOL);
    if LineAt(p, i) {
      assert (p + q)[i..k] == p[i..k];
    }
    if LineAt(p + q, i) && k + 2 <= |p| {
      FirstOfUnique(p, i, EOL, k);
    }
  }

  /** A head that is over is over, whatever follows; and it ends where it ends. */
  lemma {:induction false} HeadExtends(p: string, q: string, i: nat, req: Request)
    requires i <= |p|
    ensures ReadHead(p, i, req).outcome != Incomplete ==> ReadHead(p + q, i, req) == ReadHead(p, i, req)
    ensures var h := ReadHead(p + q, i, req);
            h.outcome != Incomplete && h.next <= |p| ==> ReadHead(p, i, req) == h
    decreases |p| - i
  {
    hide FirstOf, LineAt, LineText, NextLine, ReadLine;
    LineExtends(p, q, i);
    if LineAt(p, i) {
      var r := ReadLine(req, i, LineText(p, i));
      if r.outcome == Incomplete {
        HeadExtends(p, q, NextLine(p, i), r.req);
      }
    }
  }

  /** After a whole head and some of its body, the parser is as if it had just read the
      head and then received that part. */
  lemma EnterBody(p: string, h: Head, n: nat, canOpen: string -> bool) returns (d: Conn)
    requires h == ReadHead(p, 0, NONE_YET) && h.outcome == HasBody && h.req.contentLength == n > 0
    ensures AtBody(d, n) && |d.buf| == h.next && SameFields(d, h.req) && SamePointers(d.buf, d, h.next, h.req)
    ensures ProcessRead(Receive(FRESH, p), canOpen) == ProcessRead(Receive(d, p[h.next..]), canOpen)
  {
    hide ProcessRead, ReadHead, Sim, Entered, SamePointers;
    FreshSim(p);
    EnteredSim(Receive(FRESH, p), p, 0, NONE_YET);
    var e := Entered(Receive(FRESH, p)).value;
    SimFacts(e, p, h.next, h.req);
    SimParts(e, p, h.next, h.req);
    d := e.(buf := e.buf[..h.next]);
    assert e.buf == e.buf[..h.next] + e.buf[h.next..];
    assert e == Receive(d, p[h.next..]);
    EnteredRuns(Receive(FRESH, p), canOpen);
    PointersCut(e, h.next, h.req);
  }

  lemma SimParts(c: Conn, raw: string, i: nat, req: Request)
    requires Sim(c, raw, i, req)
    ensures i <= |c.buf| == |raw| && c.buf[i..] == raw[i..]
    ensures SameFields(c, req) && SamePointers(c.buf, c, i, req)
  {
  }

  lemma PointersCut(e: Conn, n: nat, req: Request)
    requires n <= |e.buf| && SamePointers(e.buf, e, n, req)
    ensures SamePointers(e.buf[..n], e.(buf := e.buf[..n]), n, req)
  {
    hide StrEnd, CStr;
    if req.phase != RequestLine {
      HoldsCut(e.buf, e.url, n, req.url);
    }
    if req.host.Some? {
      HoldsCut(e.buf, e.host, n, req.host.value);
    }
  }

  lemma HoldsCut(b: string, p: Ptr, n: nat, h: Held)
    requires n <= |b| && Holds(b, p, n, h)
    ensures Holds(b[..n], p, n, h)
  {
    hide StrEnd, CStr;
    CStrLocal(b, b[..n], h.at, n);
  }

  /** The pieces in which the bytes behind the first `skip` come. */
  function BodyPieces(chunks: seq<string>, skip: nat): seq<string> {
    if chunks == [] then []
    else if |chunks[0]| < skip then BodyPieces(chunks[1..], skip - |chunks[0]|)
    else [chunks[0][skip..]] + chunks[1..]
  }

  lemma {:induction false} PiecesFlat(chunks: seq<string>, skip: nat)
    requires 0 < skip <= |Flatten(chunks)|
    ensures Flatten(BodyPieces(chunks, skip)) == Flatten(chunks)[skip..] && BodyPieces(chunks, skip) != []
  {
    if |chunks[0]| < skip {
      PiecesFlat(chunks[1..], skip - |chunks[0]|);
      assert Flatten(chunks)[skip..] == Flatten(chunks[1..])[skip - |chunks[0]|..];
    } else {
      var p := BodyPieces(chunks, skip);
      assert p[1..] == chunks[1..];
      assert Flatten(chunks)[skip..] == chunks[0][skip..] + Flatten(chunks[1..]);
    }
  }

  lemma {:induction false} BodyMeansLength(raw: string, i: nat, req: Request)
    requires i <= |raw| && req.phase != Content && ReadHead(raw, i, req).outcome == HasBody
    ensures ReadHead(raw, i, req).req.contentLength != 0 && ReadHead(raw, i, req).req.phase == Content
    ensures ReadHead(raw, i, req).next > i
    decreases |raw| - i
  {
    hide FieldOf, SplitLine, LineText, LineAt;
    var r := ReadLine(req, i, LineText(raw, i));
    if r.outcome == Incomplete {
      BodyMeansLength(raw, NextLine(raw, i), r.req);
    }
  }

  /** The bytes of a connection begin with a head that announces a body of `n` bytes, and
      the sum of length and cursor stays an int: the real buffer holds a megabyte. */
  predicate Announces(raw: string, h: Head, n: nat) {
    h == ReadHead(raw, 0, NONE_YET) && h.outcome == HasBody && h.req.contentLength == n && |raw| + n < 0x8000_0000
  }

  lemma AnnouncesFacts(raw: string, h: Head, n: nat)
    requires Announces(raw, h, n)
    ensures n > 0 && h.req.phase == Content && 0 < h.next <= |raw| && |raw| + n < 0x8000_0000
  {
    BodyMeansLength(raw, 0, NONE_YET);
  }

  /** Reads behind `before`, which does not end the head: from some state at the end of the
      head on, they are reads of the body. */
  lemma {:induction false} FromHead(before: string, chunks: seq<string>, h: Head, n: nat, canOpen: string -> bool)
    returns (d: Conn)
    requires Announces(before + Flatten(chunks), h, n) && |before| < h.next
    ensures AtBody(d, n) && |d.buf| == h.next && SameFields(d, h.req) && SamePointers(d.buf, d, h.next, h.req)
    ensures var c := ProcessRead(Receive(FRESH, before), canOpen).conn;
            Feed(c, chunks, canOpen) == Feed(d, BodyPieces(chunks, h.next - |before|), canOpen)
    decreases |chunks|
  {
    hide ProcessRead, ReadHead, Feed, SamePointers;
    AnnouncesFacts(before + Flatten(chunks), h, n);
    var c := ProcessRead(Receive(FRESH, before), canOpen).conn;
    var p, rest := before + chunks[0], chunks[1..];
    HeadExtends(before, Flatten(chunks), 0, NONE_YET);
    StaysInHead(before, canOpen);
    Resume(Receive(FRESH, before), chunks[0], canOpen);
    TwoParts(before, chunks);
    HeadExtends(p, Flatten(rest), 0, NONE_YET);
    FeedFirst(c, chunks, canOpen);
    if |p| < h.next {
      StaysInHead(p, canOpen);
      SomeLeft(p, rest, h.next);
      d := FromHead(p, rest, h, n, canOpen);
    } else {
      d := EnterBody(p, h, n, canOpen);
      FeedFirst(d, BodyPieces(chunks, h.next - |before|), canOpen);
      assert chunks[0][h.next - |before|..] == p[h.next..];
    }
  }

  lemma TwoParts(before: string, chunks: seq<string>)
    requires chunks != []
    ensures before + Flatten(chunks) == (before + chunks[0]) + Flatten(chunks[1..])
    ensures Receive(Receive(FRESH, before), chunks[0]) == Receive(FRESH, before + chunks[0])
  {
    Assoc(before, chunks[0], Flatten(chunks[1..]));
    Assoc(FRESH.buf, before, chunks[0]);
  }

  lemma SomeLeft(p: string, rest: seq<string>, next: nat)
    requires |p| < next <= |p + Flatten(rest)|
    ensures rest != []
  {
  }

  // When the body is found where it is.

  /** The scanner stays where it is on these bytes: there are none, or they begin with a
      lone CR or LF. */
  predicate Untouched(x: string) {
    x == "" || (x[0] in EOL && !(|x| > 1 && x[0] == CR && x[1] == LF))
  }

  lemma UntouchedIs(x: string)
    ensures Untouched(x) <==> Stop(x, 0) == 0
    ensures LineAt(x, 0) ==> !Untouched(x)
  {
    if x != "" && x[0] in EOL {
      FirstOfUnique(x, 0, EOL, 0);
    }
  }

  /** The body starts no earlier than where the last pass began. */
  lemma {:induction false} StartsLate(w: string, s: nat, c: nat, pieces: seq<string>, n: nat)
    requires s <= c <= |w|
    ensures BodyRun(w, s, c, pieces, n).Some? ==> BodyRun(w, s, c, pieces, n).value >= s
    decreases |pieces|
  {
    hide LinesEnd, Stop;
    if pieces != [] && |w + pieces[0]| < n + c {
      var v := w + pieces[0];
      StartsLate(v, LinesEnd(v, c), Stop(v, c), pieces[1..], n);
    }
  }

  /** The reads complete the body before the scanner moves, or at the very next read after
      it moved over no whole line. */
  predicate OnTime(w: string, pieces: seq<string>, n: nat)
    decreases |pieces|
  {
    pieces != []
    && var v := w + pieces[0];
       |v| >= n
       || if Untouched(v) then OnTime(v, pieces[1..], n)
          else !LineAt(v, 0) && |pieces| > 1 && |v + pieces[1]| >= n + FirstOf(v, 0, EOL)
  }

  /** The parser takes the right bytes for the body exactly in these cases. */
  lemma {:induction false} RightBody(w: string, pieces: seq<string>, n: nat)
    ensures BodyRun(w, 0, 0, pieces, n) == Some(0) <==> OnTime(w, pieces, n)
    decreases |pieces|
  {
    if pieces != [] && |w + pieces[0]| < n {
      hide LineAt, NextLine, FirstOf, Untouched, Stop;
      var v, rest := w + pieces[0], pieces[1..];
      UntouchedIs(v);
      StopIs(v);
      if Untouched(v) {
        RightBody(v, rest, n);
      } else if LineAt(v, 0) {
        StartsLate(v, LinesEnd(v, 0), Stop(v, 0), rest, n);
      } else if rest != [] && |v + rest[0]| < n + Stop(v, 0) {
        var u := v + rest[0];
        StartsLate(u, LinesEnd(u, Stop(v, 0)), Stop(u, Stop(v, 0)), rest[1..], n);
      }
    }
  }

  lemma StopIs(v: string)
    ensures !LineAt(v, 0) ==> LinesEnd(v, 0) == 0 && Stop(v, 0) == FirstOf(v, 0, EOL)
  {
  }

  /** All that `pieces` bring but for the last. */
  function Before(pieces: seq<string>): string
    requires pieces != []
  {
    Flatten(pieces[..|pieces| - 1])
  }

  lemma BeforeTail(pieces: seq<string>)
    requires |pieces| > 1
    ensures Before(pieces) == pieces[0] + Before(pieces[1..])
  {
    FlattenTail(pieces, |pieces| - 1);
  }

  lemma BeforeOne(pieces: seq<string>)
    requires |pieces| == 1
    ensures Before(pieces) == "" && Flatten(pieces) == pieces[0]
  {
    assert pieces[..0] == [] && pieces[1..] == [];
  }

  lemma {:induction false} BeforeShorter(pieces: seq<string>)
    requires pieces != [] && pieces[|pieces| - 1] != ""
    ensures |Before(pieces)| < |Flatten(pieces)|
  {
    if |pieces| == 1 {
      BeforeOne(pieces);
    } else {
      BeforeTail(pieces);
      BeforeShorter(pieces[1..]);
    }
  }

  lemma TouchedStays(x: string, y: string)
    requires !Untouched(x)
    ensures !Untouched(x + y)
  {
  }

  /** With too few bytes behind the cursor no read completes the body. */
  lemma {:induction false} TooFew(w: string, s: nat, c: nat, pieces: seq<string>, n: nat)
    requires s <= c <= |w| && |w| + |Flatten(pieces)| < n + c
    ensures BodyRun(w, s, c, pieces, n) == None
    decreases |pieces|
  {
    hide LinesEnd, Stop;
    if pieces != [] {
      FlattenOn(w, pieces);
      var v := w + pieces[0];
      TooFew(v, LinesEnd(v, c), Stop(v, c), pieces[1..], n);
    }
  }

  /** If nothing follows the body, it is found, and then in its place, exactly if what
      came of it before the last read leaves the scanner where it was. */
  lemma {:induction false} NothingFollows(w: string, pieces: seq<string>, n: nat)
    requires pieces != [] && pieces[|pieces| - 1] != "" && |w| + |Flatten(pieces)| == n && Untouched(w)
    ensures BodyRun(w, 0, 0, pieces, n) == if Untouched(w + Before(pieces)) then Some(0) else None
    decreases |pieces|
  {
    hide Untouched, LinesEnd, Stop;
    FlattenOn(w, pieces);
    var v, rest := w + pieces[0], pieces[1..];
    if |pieces| == 1 {
      BeforeOne(pieces);
      assert w + "" == w;
    } else {
      BeforeTail(pieces);
      BeforeShorter(pieces);
      BeforeShorter(rest);
      Assoc(w, pieces[0], Before(rest));
      UntouchedIs(v);
      if Untouched(v) {
        NoLines(v);
        NothingFollows(v, rest, n);
      } else {
        TouchedStays(v, Before(rest));
        TooFew(v, LinesEnd(v, 0), Stop(v, 0), rest, n);
      }
    }
  }

  lemma NoLines(v: string)
    requires Stop(v, 0) == 0
    ensures LinesEnd(v, 0) == 0
  {
  }

  /** Bytes that follow can make the body complete, and in the right place: a first piece
      without CR or LF, then a read of at least `n` bytes. */
  lemma NextReadAnswers(d: Conn, x: string, y: string, n: nat, canOpen: string -> bool)
    requires AtBody(d, n) && !d.multipart && |d.buf| + |x| + |y| + n < 0x8000_0000
    requires 0 < |x| < n <= |y| && forall k | 0 <= k < |x| :: x[k] !in EOL
    ensures var r := Feed(d, [x, y], canOpen);
            && r.code == Dispatch && r.conn.body == At(|d.buf|) && |d.buf| + n <= |r.conn.buf|
            && r.conn.buf[|d.buf|..|d.buf| + n] == (x + y)[..n]
  {
    hide Feed;
    assert "" + x == x;
    FirstOfUnique(x, 0, EOL, |x|);
    assert [x, y][1..] == [y] && [y][1..] == [];
    assert Flatten([y]) == y && Flatten([x, y]) == x + y;
    assert BodyRun("", 0, 0, [x, y], n) == Some(0);
    FormRun(d, [x, y], n, canOpen);
  }

  /** Or in the wrong place: with one more such piece between them, the handler is given
      bytes from the middle of the body. */
  lemma MiddleOfBody(x: string, z: string, y: string, n: nat)
    requires 0 < |x| < n && 0 < |z| < n <= |y|
    requires (forall k | 0 <= k < |x| :: x[k] !in EOL) && forall k | 0 <= k < |z| :: z[k] !in EOL
    ensures BodyRun("", 0, 0, [x, z, y], n) == Some(|x|)
  {
    assert "" + x == x;
    FirstOfUnique(x, 0, EOL, |x|);
    FirstOfUnique(x + z, |x|, EOL, |x + z|);
    assert [x, z, y][1..] == [z, y] && [z, y][1..] == [y];
    assert BodyRun(x + z, |x|, |x| + |z|, [y], n) == Some(|x|);
    assert BodyRun(x, 0, |x|, [z, y], n) == Some(|x|);
  }

  /** So `do_request` takes these bytes for a form. */
  lemma MiddleGiven(d: Conn, x: string, z: string, y: string, n: nat, canOpen: string -> bool)
    requires AtBody(d, n) && !d.multipart && |d.buf| + |x| + |z| + |y| + n < 0x8000_0000
    requires 0 < |x| < n && 0 < |z| < n <= |y|
    requires (forall k | 0 <= k < |x| :: x[k] !in EOL) && forall k | 0 <= k < |z| :: z[k] !in EOL
    ensures var r := Feed(d, [x, z, y], canOpen);
            && r.code == Dispatch && r.conn.body == At(|d.buf| + |x|) && |d.buf| + |x| + n <= |r.conn.buf|
            && r.conn.buf[|d.buf| + |x|..|d.buf| + |x| + n] == (z + y)[..n]
  {
    hide BodyRun, Feed;
    MiddleOfBody(x, z, y, n);
    assert [x, z, y][1..] == [z, y] && [z, y][1..] == [y] && [y][1..] == [];
    assert Flatten([y]) == y && Flatten([x, z, y]) == x + (z + y);
    FormRun(d, [x, z, y], n, canOpen);
    assert (x + (z + y))[|x|..|x| + n] == (z + y)[..n];
  }

  /** Where the reads of a connection let the parser find the body, behind the head. */
  function Found(chunks: seq<string>, h: Head, n: nat): Option<nat> {
    BodyRun("", 0, 0, BodyPieces(chunks, h.next), n)
  }

  lemma {:induction false} PiecesBefore(chunks: seq<string>, skip: nat)
    requires 0 < skip < |Flatten(chunks)| && chunks[|chunks| - 1] != ""
    ensures var pieces, b := BodyPieces(chunks, skip), Before(chunks);
            && pieces != [] && pieces[|pieces| - 1] != ""
            && Before(pieces) == if |b| <= skip then "" else b[skip..]
  {
    hide Before, BodyPieces, Flatten;
    PiecesStep(chunks, skip);
    var rest := chunks[1..];
    FlattenOn("", chunks);
    if |chunks| == 1 {
      BeforeOne(chunks);
      BeforeOne(BodyPieces(chunks, skip));
    } else {
      BeforeTail(chunks);
      if |chunks[0]| < skip {
        PiecesBefore(rest, skip - |chunks[0]|);
        SliceBehind(chunks[0], Before(rest), skip);
      } else {
        var pieces := BodyPieces(chunks, skip);
        assert pieces[1..] == rest;
        BeforeTail(pieces);
        SliceIn(chunks[0], Before(rest), skip);
      }
    }
  }

  lemma PiecesStep(chunks: seq<string>, skip: nat)
    requires 0 < skip < |Flatten(chunks)|
    ensures chunks != [] && |Flatten(chunks)| == |chunks[0]| + |Flatten(chunks[1..])|
    ensures BodyPieces(chunks, skip)
            == if |chunks[0]| < skip then BodyPieces(chunks[1..], skip - |chunks[0]|)
               else [chunks[0][skip..]] + chunks[1..]
    ensures |chunks| == 1 ==> Flatten(chunks) == chunks[0] && |chunks[0]| > skip
  {
    if |chunks| == 1 {
      BeforeOne(chunks);
    }
  }

  lemma SliceBehind(a: string, b: string, skip: nat)
    requires |a| < skip
    ensures |a + b| > skip ==> (a + b)[skip..] == b[skip - |a|..]
  {
  }

  lemma SliceIn(a: string, b: string, skip: nat)
    requires skip <= |a|
    ensures (a + b)[skip..] == a[skip..] + b
  {
  }

  /** Every cutting of a connection's bytes: from the end of the head on the parser is a
      parser of the body, given the pieces behind the head. */
  lemma EveryCut(chunks: seq<string>, h: Head, n: nat, canOpen: string -> bool) returns (d: Conn)
    requires Announces(Flatten(chunks), h, n)
    ensures AtBody(d, n) && |d.buf| == h.next && SameFields(d, h.req) && SamePointers(d.buf, d, h.next, h.req)
    ensures Feed(FRESH, chunks, canOpen) == Feed(d, BodyPieces(chunks, h.next), canOpen)
    ensures Flatten(BodyPieces(chunks, h.next)) == Flatten(chunks)[h.next..]
    ensures |d.buf| + |Flatten(BodyPieces(chunks, h.next))| + n < 0x8000_0000
  {
    hide ProcessRead, ReadHead, SamePointers, Feed, BodyPieces;
    AnnouncesFacts(Flatten(chunks), h, n);
    EmptyFront(Flatten(chunks));
    NothingRead(canOpen);
    d := FromHead("", chunks, h, n, canOpen);
    PiecesFlat(chunks, h.next);
  }

  lemma NothingRead(canOpen: string -> bool)
    ensures ProcessRead(Receive(FRESH, ""), canOpen) == Step(FRESH, NoRequest)
  {
    assert Receive(FRESH, "") == FRESH;
  }

  /** Nothing but one request: its body is found, and then in its place, exactly if what
      came of it before the last read is empty or begins with a lone CR or LF. */
  lemma OneRequest(chunks: seq<string>, h: Head, n: nat)
    requires Announces(Flatten(chunks), h, n) && |Flatten(chunks)| == h.next + n && chunks[|chunks| - 1] != ""
    ensures var b := Before(chunks);
            Found(chunks, h, n) == if |b| <= h.next || Untouched(b[h.next..]) then Some(0) else None
  {
    hide ReadHead, BodyRun, BodyPieces, Untouched;
    AnnouncesFacts(Flatten(chunks), h, n);
    PiecesBefore(chunks, h.next);
    PiecesFlat(chunks, h.next);
    var pieces := BodyPieces(chunks, h.next);
    EmptyFront(Before(pieces));
    UntouchedIs("");
    NothingFollows("", pieces, n);
  }
}
