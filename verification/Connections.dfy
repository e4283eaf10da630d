/** A connection of src/http_conn.cpp as a whole: parser, `do_request` and response on one
    object, as `process` runs them.  The two halves of the source's class are the classes
    of HttpConn.dfy and Response.dfy; of the fields, they share `m_linger` and `m_url`. */
module Connections {
  import opened Basics
  import opened CString
  import opened RequestHead
  import opened HeadCuts
  import opened Answers
  import opened DoRequest
  import opened Response
  import opened Sending
  import opened Replies
  import HttpConnection

  // The pointers of a request.

  /** URL and body lie inside the bytes received. */
  predicate Inside(c: Conn) {
    && Valid(c)
    && (c.url.At? ==> c.url.offset <= |c.buf|)
    && (c.body.At? ==> c.phase == Content && c.body.offset <= |c.buf| && c.body.offset + c.contentLength <= |c.buf|)
  }

  lemma InsideLine(c: Conn, t: nat)
    requires AfterLine(c, t) && Inside(c) && c.phase == RequestLine
    ensures Inside(ParseRequestLine(c, t).conn)
  {
    hide CStr, StrEnd, SplitLine, AcceptedBytes;
    LineEndsInside(c, t);
  }

  lemma InsideBody(c: Conn, t: nat, canOpen: string -> bool)
    requires t <= c.checked <= |c.buf| && Inside(c) && c.phase == Content
    ensures Inside(ParseContent(c, t, canOpen).conn)
  {
  }

  /** `process_read` keeps them inside. */
  lemma {:induction false} InsideRun(c: Conn, status: LineStatus, canOpen: string -> bool)
    requires Inside(c)
    ensures Inside(Run(c, status, canOpen).conn)
    decreases |c.buf| - c.checked, if c.phase == Content && status == LineOk then 2 else 0
  {
    if c.phase == Content && status == LineOk {
      InsideHandle(c, canOpen);
    } else if Scan(c).status == LineOk {
      InsideHandle(Scan(c).conn, canOpen);
    }
  }

  lemma {:induction false} InsideHandle(c: Conn, canOpen: string -> bool)
    requires Inside(c) && (c.phase == Content || AfterLine(c, c.start))
    ensures Inside(Handle(c, canOpen).conn)
    decreases |c.buf| - c.checked, if c.phase == Content then 1 else 3
  {
    hide ParseRequestLine, ParseContent, FieldOf;
    var t := c.start;
    var d := c.(start := c.checked);
    match c.phase
    case RequestLine =>
      InsideLine(d, t);
      var r := ParseRequestLine(d, t);
      if r.code != Code.BadRequest {
        InsideRun(r.conn, LineOk, canOpen);
      }
    case Header =>
      var r := ParseHeaderLine(d, t);
      if r.code == NoRequest {
        InsideRun(r.conn, LineOk, canOpen);
      }
    case Content =>
      InsideBody(d, t, canOpen);
      var r := ParseContent(d, t, canOpen);
      if r.code != Dispatch && r.code != Undefined {
        InsideRun(r.conn, LineOpen, canOpen);
      }
  }

  /** So they are inside over all reads of a request. */
  lemma {:induction false} InsideFeed(c: Conn, chunks: seq<string>, canOpen: string -> bool)
    requires Inside(c)
    ensures Inside(Feed(c, chunks, canOpen).conn)
    decreases |chunks|
  {
    if chunks != [] {
      hide Run;
      InsideRun(Receive(c, chunks[0]), LineOk, canOpen);
      var r := ProcessRead(Receive(c, chunks[0]), canOpen);
      if r.code == NoRequest && |chunks| > 1 {
        InsideFeed(r.conn, chunks[1..], canOpen);
      }
    }
  }

  /** One more read. */
  lemma {:induction false} FeedMore(c: Conn, chunks: seq<string>, x: string, canOpen: string -> bool)
    requires Valid(c) && Feed(c, chunks, canOpen).code == NoRequest
    ensures Feed(c, chunks + [x], canOpen) == ProcessRead(Receive(Feed(c, chunks, canOpen).conn, x), canOpen)
    decreases |chunks|
  {
    hide ProcessRead;
    if chunks == [] {
      var d := ProcessRead(Receive(c, x), canOpen).conn;
      assert [x][1..] == [] && d.buf + "" == d.buf;
    } else {
      var r := ProcessRead(Receive(c, chunks[0]), canOpen);
      assert (chunks + [x])[1..] == chunks[1..] + [x];
      assert r.conn.buf + "" == r.conn.buf;
      if |chunks| > 1 {
        FeedMore(r.conn, chunks[1..], x, canOpen);
      } else {
        assert chunks[1..] == [];
        FeedMore(r.conn, [], x, canOpen);
      }
    }
  }

  /** Reads behind a request that is over stay unread. */
  lemma {:induction false} FeedStops(c: Conn, chunks: seq<string>, k: nat, canOpen: string -> bool)
    requires Valid(c) && k <= |chunks| && Feed(c, chunks[..k], canOpen).code != NoRequest
    ensures var r := Feed(c, chunks[..k], canOpen);
            Feed(c, chunks, canOpen) == Step(Receive(r.conn, Flatten(chunks[k..])), r.code)
    decreases |chunks|
  {
    hide ProcessRead;
    var r := ProcessRead(Receive(c, chunks[0]), canOpen);
    var ready := chunks[..k][1..];
    assert ready == chunks[1..][..k - 1] && chunks[1..][k - 1..] == chunks[k..];
    if r.code == NoRequest && k > 1 {
      FeedStops(r.conn, chunks[1..], k - 1, canOpen);
    } else {
      FlattenSplit(chunks[1..], k - 1);
      assert (r.conn.buf + Flatten(ready)) + Flatten(chunks[k..])
             == r.conn.buf + (Flatten(ready) + Flatten(chunks[k..]));
    }
  }

  // `do_request` and `process`, as functions.

  /** What `stat` and `open` say of the file at a URL. */
  datatype Lookup = Missing | Unreadable(size: nat) | Directory(size: nat) | Regular(file: string)

  /** What is given: the user table, the outcome of an INSERT, which uploads can be
      stored, and the files. */
  datatype World = World(users: map<string, string>, dbOk: bool, canOpen: string -> bool, look: string -> Lookup)

  /** What `do_request` returns, and leaves for the response and in the user table. */
  datatype Done = Done(code: WriteCode, page: Page, users: map<string, string>)

  /** The end of `do_request`. */
  function LookedUp(url: string, page: Page, w: World): Done {
    match w.look(url)
    case Missing => Done(NoResource, page, w.users)
    case Unreadable(size) => Done(Forbidden, page.(fileSize := size), w.users)
    case Directory(size) => Done(WriteCode.BadRequest, page.(fileSize := size), w.users)
    case Regular(file) => Done(FileRequest, page.(fileSize := |file|, mapped := Some(file)), w.users)
  }

  /** The request after the redirect, if there is any. */
  function Redirected(c: Conn): (d: Conn)
    ensures d == c.(buf := d.buf) && |d.buf| == |c.buf|
  {
    if c.url.At? && Redirect(c).Some? then Redirect(c).value else c
  }

  lemma RedirectedIs(c: Conn)
    ensures Redirected(c) == if !c.url.Null? && Redirect(c).Some? then Redirect(c).value else c
  {
    hide EqNoCase, CStr, Overwrite;
  }

  /** `do_request`; None where C++ does not define it. */
  function Requested(c: Conn, before: Page, w: World): Option<Done> {
    var page := before.(linger := c.linger, url := UrlText(Redirected(c)));
    match Decide(c, w.users, w.dbOk)
    case Wild => None
    case Refused => Some(Done(WriteCode.BadRequest, page.(isJson := page.isJson || !c.url.Null?), w.users))
    case Api(a) => if a.Overflow? then None else Some(Replied(page, a))
    case Serve(d) => Some(LookedUp(page.url, page, w))
  }

  function Replied(page: Page, a: Answer): Done
    requires a.Answer?
  {
    Done(GetRequest,
         page.(isJson := true, jsonString := Some(JsonText(a.reply)), setCookie := page.setCookie || a.setCookie),
         a.users)
  }

  /** What the connection is armed for after `process`, or how else it ends. */
  datatype After = AwaitRead | AwaitWrite | Closed | Unknown

  /** What `process` leads to: `produced` is what `process_write` returns and leaves, `size`
      the file size for `write`. */
  datatype Processed = Processed(after: After, produced: Option<Produced>, size: nat, users: map<string, string>)

  function Build(d: Done, written: string, iov: seq<string>): Processed {
    var p := Produce(d.page, d.code, written, iov);
    Processed(if p.ok then AwaitWrite else Closed, Some(p), d.page.fileSize, d.users)
  }

  /** What is to be answered after `process_read` has given `r`; `do_request` is part of it. */
  function Decided(r: Step, before: Page, w: World): Option<Done> {
    var page := before.(linger := r.conn.linger, url := UrlText(r.conn));
    match r.code
    case BadRequest => Some(Done(WriteCode.BadRequest, page, w.users))
    case InternalError => Some(Done(WriteCode.InternalError, page, w.users))
    case Dispatch => Requested(r.conn, before, w)
    case _ => None
  }

  /** The rest of `process`, after `process_read` has given `r`; the response begins with
      the fields `before`, and `written` in its buffer. */
  function Processing(r: Step, before: Page, written: string, iov: seq<string>, w: World): Processed {
    var d := Decided(r, before, w);
    if r.code == NoRequest then Processed(AwaitRead, None, before.fileSize, w.users)
    else if d.None? then Processed(Unknown, None, before.fileSize, w.users)
    else Build(d.value, written, iov)
  }

  /** The connection waits for the next read exactly if the request is not complete. */
  lemma ReadingIs(r: Step, before: Page, written: string, iov: seq<string>, w: World)
    ensures Processing(r, before, written, iov, w).after == AwaitRead <==> r.code == NoRequest
  {
    hide Requested, Produce, UrlText;
  }

  lemma NothingFed(w: World, before: Page, written: string, iov: seq<string>)
    ensures Feed(FRESH, [], w.canOpen) == Step(FRESH, NoRequest)
    ensures Processing(Step(FRESH, NoRequest), before, written, iov, w)
            == Processed(AwaitRead, None, before.fileSize, w.users)
  {
  }

  lemma InsideMore(c: Conn, bytes: string)
    requires Inside(c)
    ensures Inside(Receive(c, bytes))
  {
  }

  // The object.

  /** Reading a C string in the buffer stops at the last byte received. */
  lemma StringReceived(whole: string, n: nat, o: nat)
    requires o <= n < |whole| && whole[n] == NUL
    ensures CStr(whole, o) == CStr(whole[..n], o)
  {
    var e := StrEnd(whole[..n], o);
    FirstOfUnique(whole, o, {NUL}, e);
    assert whole[..n][o..e] == whole[o..e];
  }

  class Connection {
    const parser: HttpConnection.HttpConn
    const response: HttpConn

    ghost predicate Valid()
      reads this, parser, parser.readBuf, response
    {
      && parser.Valid() && parser.readBuf.Length == READ_SIZE && Inside(parser.State())
      && response.Valid() && parser.readBuf != response.writeBuf
    }

    /** `size` is what the memory of `m_file_stat` holds. */
    constructor (size: nat)
      ensures Valid() && fresh(parser) && fresh(parser.readBuf) && fresh(response) && fresh(response.writeBuf)
      ensures parser.State() == FRESH && response.Written() == "" && response.wire == ""
      ensures response.Asked() == Page(false, false, false, None, "", size, None)
    {
      parser := new HttpConnection.HttpConn(READ_SIZE);
      response := new HttpConn(size);
    }

    /** The string at `m_url`. */
    method ReadUrl() returns (url: string)
      requires Valid()
      ensures url == UrlText(parser.State())
    {
      match parser.url
      case Null => url := "";
      case Literal(text) => url := text;
      case At(o) =>
        url := CStr(parser.readBuf[..], o);
        StringReceived(parser.readBuf[..], parser.readIdx, o);
        assert parser.readBuf[..][..parser.readIdx] == parser.readBuf[..parser.readIdx];
    }

    /** The redirect, in place; not `ok` if it would write outside the buffer. */
    method RedirectUrl() returns (ok: bool)
      requires Valid()
      modifies parser.readBuf
      ensures Valid() && ok == Redirect(old(parser.State())).Some?
      ensures parser.State() == if ok then Redirect(old(parser.State())).value else old(parser.State())
    {
      hide Protected, CStr, Overwrite;
      var url := ReadUrl();
      if Protected(url) && !parser.cookieIsLogin {
        if !parser.url.At? || parser.url.offset + |LOG_ERROR| > parser.readIdx {
          return false;
        }
        parser.CopyString(parser.url.offset, LOG_ERROR);
      }
      return true;
    }

    /** The form at `m_string`. */
    method TakeForm() returns (f: Form)
      requires Valid() && parser.body.At?
      ensures f == FormIn(BodyText(parser.State()), parser.body.offset, READ_SIZE)
    {
      hide FormOf;
      var at := parser.body.offset;
      var n := if parser.contentLength < 0 then 0 else parser.contentLength;
      f := ReadForm(parser.readBuf, at, n);
      assert parser.readBuf[..parser.readIdx][at..at + n] == parser.readBuf[at..at + n];
      assert parser.readBuf[at..at] == "";
    }

    /** `do_request`; no code where C++ does not define it. */
    method DoRequest(w: World) returns (code: Option<WriteCode>, users: map<string, string>)
      requires Valid()
      modifies parser.readBuf, response`linger, response`url, response`isJson, response`jsonString,
               response`setCookie, response`fileSize, response`mapped
      ensures Valid() && parser.State() == Redirected(old(parser.State()))
      ensures var d := Requested(old(parser.State()), old(response.Asked()), w);
              if code.None? then d == None && users == w.users else d == Some(Done(code.value, response.Asked(), users))
      ensures code.Some? ==> response.linger == parser.linger
    {
      hide EqNoCase, UrlText, Formed, Redirect, Redirected, Inside, Replied;
      ghost var c := parser.State();
      users := w.users;
      RedirectedIs(c);
      if parser.url.Null? {
        var none := Share();
        return Some(WriteCode.BadRequest), users;
      }
      var ok := RedirectUrl();
      if !ok {
        return None, users;
      }
      var url := Share();
      if parser.meth == POST && (EqNoCase(url, "/2") || EqNoCase(url, "/3")) {
        code, users := AnswerForm(url, w);
      } else {
        code := LookUp(url, w);
      }
    }

    /** A request to the API. */
    method AnswerForm(url: string, w: World) returns (code: Option<WriteCode>, users: map<string, string>)
      requires Valid() && (EqNoCase(url, "/2") || EqNoCase(url, "/3"))
      modifies response`isJson, response`jsonString, response`setCookie
      ensures Valid()
      ensures var page := old(response.Asked());
              match Formed(parser.State(), url, w.users, w.dbOk)
              case Refused => code == Some(WriteCode.BadRequest) && users == w.users
                              && response.Asked() == page.(isJson := true)
              case Api(a) => a.Answer? && code == Some(GetRequest)
                             && Replied(page, a) == Done(GetRequest, response.Asked(), users)
              case _ => code == None && users == w.users
    {
      hide EqNoCase, FormIn, BodyText, Inside, Register, Login, JsonText;
      users := w.users;
      response.isJson := true;
      if !parser.body.At? {
        return Some(WriteCode.BadRequest), users;
      }
      var f := TakeForm();
      if f.Overrun? {
        return None, users;
      }
      var a := if EqNoCase(url, "/2") then Login(users, f.name, f.password)
               else Register(users, f.name, f.password, w.dbOk);
      if a.Overflow? {
        return None, users;
      }
      response.jsonString := Some(JsonText(a.reply));
      response.setCookie := response.setCookie || a.setCookie;
      return Some(GetRequest), a.users;
    }

    /** A request for a file. */
    method LookUp(url: string, w: World) returns (code: Option<WriteCode>)
      requires Valid()
      modifies response`fileSize, response`mapped
      ensures Valid() && code.Some?
      ensures LookedUp(url, old(response.Asked()), w) == Done(code.value, response.Asked(), w.users)
    {
      hide Inside;
      match w.look(url)
      case Missing => code := Some(NoResource);
      case Unreadable(size) => response.fileSize := size; code := Some(Forbidden);
      case Directory(size) => response.fileSize := size; code := Some(WriteCode.BadRequest);
      case Regular(file) => response.MapFile(file); code := Some(FileRequest);
    }

    /** The response reads the fields that the request has set. */
    method Share() returns (url: string)
      requires Valid()
      modifies response`linger, response`url
      ensures Valid() && url == UrlText(parser.State())
      ensures response.Asked() == old(response.Asked()).(linger := parser.linger, url := url)
    {
      url := ReadUrl();
      response.linger, response.url := parser.linger, url;
    }

    /** What `process` does between reading and writing. */
    method Answer(code: Code, w: World) returns (answer: Option<WriteCode>, users: map<string, string>)
      requires Valid()
      modifies parser.readBuf, response`linger, response`url, response`isJson, response`jsonString,
               response`setCookie, response`fileSize, response`mapped
      ensures Valid()
      ensures parser.State() == if code == Dispatch then Redirected(old(parser.State())) else old(parser.State())
      ensures var d := Decided(Step(old(parser.State()), code), old(response.Asked()), w);
              if answer.None? then d == None && users == w.users
              else d == Some(Done(answer.value, response.Asked(), users))
      ensures answer.Some? ==> response.linger == parser.linger
    {
      hide Requested, Inside, UrlText, Redirected;
      users := w.users;
      match code {
        case BadRequest =>
          var url := Share();
          answer := Some(WriteCode.BadRequest);
        case InternalError =>
          var url := Share();
          answer := Some(WriteCode.InternalError);
        case Dispatch =>
          answer, users := DoRequest(w);
        case _ =>
          answer := None;
      }
    }

    /** `process`. */
    method Process(w: World) returns (after: After, users: map<string, string>)
      requires Valid()
      modifies parser, parser.readBuf, response, response.writeBuf
      ensures Valid()
      ensures var r := ProcessRead(old(parser.State()), w.canOpen);
              var p := Processing(r, old(response.Asked()), old(response.Written()), old(response.iov), w);
              && after == p.after && users == p.users
              && parser.State() == (if r.code == Dispatch then Redirected(r.conn) else r.conn)
              && (p.produced.Some? ==>
                    && p.produced.value
                       == Produced(after == AwaitWrite, response.Written(), response.iov, response.setCookie)
                    && p.size == response.fileSize && response.linger == r.conn.linger)
              && response.wire == old(response.wire)
              && (after == AwaitRead ==>
                    && response.Asked() == old(response.Asked()) && response.iov == old(response.iov)
                    && response.Written() == old(response.Written()))
    {
      hide Run, Decided, Produce, Inside, Redirected;
      users := w.users;
      ghost var c := parser.State();
      InsideRun(c, LineOk, w.canOpen);
      var code := parser.ProcessRead(w.canOpen);
      if code == NoRequest {
        return AwaitRead, users;
      }
      var answer;
      answer, users := Answer(code, w);
      if answer.None? {
        return Unknown, users;
      }
      var ok := response.ProcessWrite(answer.value);
      after := if ok then AwaitWrite else Closed;
    }

    /** The event loop's part in one request: it reads and has it processed until the
        connection waits for something else than the next read. */
    method Take(chunks: seq<string>, w: World) returns (used: nat, after: After, users: map<string, string>)
      requires Valid() && parser.State() == FRESH && |Flatten(chunks)| < READ_SIZE
      modifies parser, parser.readBuf, response, response.writeBuf
      ensures Valid() && used <= |chunks| && (after == AwaitRead ==> used == |chunks|)
      ensures var p := Processing(Feed(FRESH, chunks[..used], w.canOpen), old(response.Asked()),
                                  old(response.Written()), old(response.iov), w);
              && after == p.after && users == p.users
              && (p.produced.Some? ==>
                    && p.produced.value
                       == Produced(after == AwaitWrite, response.Written(), response.iov, response.setCookie)
                    && p.size == response.fileSize
                    && response.linger == Feed(FRESH, chunks[..used], w.canOpen).conn.linger)
      ensures response.wire == old(response.wire)
    {
      hide Inside, Feed, Run, Processing;
      used, after, users := 0, AwaitRead, w.users;
      NothingFed(w, response.Asked(), response.Written(), response.iov);
      assert chunks[..0] == [] && chunks[0..] == chunks;
      while used < |chunks| && after == AwaitRead
        invariant Valid() && used <= |chunks| && response.wire == old(response.wire)
        invariant var r := Feed(FRESH, chunks[..used], w.canOpen);
                  var p := Processing(r, old(response.Asked()), old(response.Written()), old(response.iov), w);
                  && after == p.after && users == p.users
                  && (p.produced.Some? ==>
                        && p.produced.value
                           == Produced(after == AwaitWrite, response.Written(), response.iov, response.setCookie)
                        && p.size == response.fileSize && response.linger == r.conn.linger)
                  && (after == AwaitRead ==> r.code == NoRequest && parser.State() == r.conn)
        invariant after == AwaitRead ==>
                    && response.Asked() == old(response.Asked()) && response.iov == old(response.iov)
                    && response.Written() == old(response.Written())
                    && parser.readIdx + |Flatten(chunks[used..])| == |Flatten(chunks)|
      {
        FeedMore(FRESH, chunks[..used], chunks[used], w.canOpen);
        assert chunks[..used + 1] == chunks[..used] + [chunks[used]];
        assert chunks[used..][1..] == chunks[used + 1..];
        InsideMore(parser.State(), chunks[used]);
        var ok := parser.ReadOnce(chunks[used], true);
        ghost var r := ProcessRead(parser.State(), w.canOpen);
        ReadingIs(r, response.Asked(), response.Written(), response.iov, w);
        after, users := Process(w);
        used := used + 1;
      }
      if used == |chunks| {
        assert chunks[..used] == chunks;
      }
    }

    /** `write`.  When a response is complete and the connection is kept, both halves begin
        anew. */
    method Write(takes: seq<nat>, open: bool) returns (ok: bool, arm: Arm)
      requires Valid()
      modifies parser, parser.readBuf, response, response.writeBuf
      ensures Valid() && response.fileSize == old(response.fileSize) && response.iov == old(response.iov)
      ensures var total := Total(|old(response.Written())|, old(response.fileSize));
              var s := Call(Flat(old(response.iov)), total, takes);
              && response.wire == old(response.wire) + s.wire
              && ok == (if s.done then total == 0 || old(response.linger) else open)
              && arm == (if s.done then ForRead else if open then ForWrite else Nothing)
              && if ok && s.done
                 then && parser.State() == FRESH && response.Written() == ""
                      && response.Asked() == Page(false, false, false, None, "", response.fileSize, None)
                 else && parser.State() == old(parser.State()) && response.Written() == old(response.Written())
                      && response.linger == old(response.linger)
    {
      hide Total, Sends, Flat, Call;
      ok, arm := response.Write(takes, open);
      if ok && arm == ForRead {
        parser.InitParseState();
      }
    }

    /** The calls of `write` for one response, each when the socket has room again, until one
        comes to its end. */
    method Respond(calls: seq<seq<nat>>) returns (done: bool, kept: bool)
      requires Valid()
      modifies parser, parser.readBuf, response, response.writeBuf
      ensures Valid()
      ensures Sent(response.wire, done)
              == var s := Session(Flat(old(response.iov)),
                                  Total(|old(response.Written())|, old(response.fileSize)), calls);
                 Sent(old(response.wire) + s.wire, s.done)
      ensures kept <==> done && (old(response.linger) || Total(|old(response.Written())|, old(response.fileSize)) == 0)
      ensures kept ==> parser.State() == FRESH && response.Written() == ""
                       && response.Asked() == Page(false, false, false, None, "", response.fileSize, None)
      ensures response.fileSize == old(response.fileSize)
    {
      hide Total, Sends, Flat, Call;
      ghost var text, total := Flat(response.iov), Total(|response.Written()|, response.fileSize);
      done, kept := false, false;
      var i := 0;
      while i < |calls| && !done
        invariant 0 <= i <= |calls| && Valid() && response.fileSize == old(response.fileSize)
        invariant kept <==> done && (old(response.linger) || total == 0)
        invariant kept ==> parser.State() == FRESH && response.Written() == ""
                           && response.Asked() == Page(false, false, false, None, "", response.fileSize, None)
        invariant !done ==> response.linger == old(response.linger)
        invariant var s := Session(text, total, calls);
                  if done then s.done && response.wire == old(response.wire) + s.wire
                  else var r := Session(text, total, calls[i..]);
                       && old(response.wire) + s.wire == response.wire + r.wire && s.done == r.done
                       && response.Written() == old(response.Written())
                       && response.iov == old(response.iov)
        decreases |calls| - i
      {
        assert calls[i..][1..] == calls[i + 1..];
        var ok, arm := Write(calls[i], true);
        done := arm == ForRead;
        kept := done && ok;
        i := i + 1;
      }
      assert !done ==> calls[i..] == [];
    }
  }
}
