/** Requests without a body, from the bytes of the request to what `process` makes of it:
    files, and the requests that are refused. */
module Files {
  import opened Basics
  import opened CString
  import opened RequestHead
  import opened HeadCuts
  import opened HeadMeaning
  import opened SplitBodies
  import opened Answers
  import opened DoRequest
  import opened Response
  import opened Replies
  import opened Connections

  /** The path a visitor is shown: the two pages behind the login only with the cookie. */
  function Shown(path: string, cookie: bool): string {
    if (EqNoCase(path, "/welcome.html") || EqNoCase(path, "/media.html")) && !cookie then "/logError.html" else path
  }

  /** A login or registration. */
  predicate ForApi(meth: Method, path: string) {
    meth == POST && (EqNoCase(path, "/2") || EqNoCase(path, "/3"))
  }

  /** The head of the connection's bytes is over, and says that no body follows. */
  predicate Asks(raw: string, h: Head) {
    h == ReadHead(raw, 0, NONE_YET) && h.outcome == Complete
  }

  lemma {:induction false} PastTarget(raw: string, i: nat, req: Request)
    requires i <= |raw| && req.phase != Content
    ensures var h := ReadHead(raw, i, req);
            && (h.outcome == Complete ==> h.req.phase == Header)
            && (h.outcome == HasBody ==> h.req.phase == Content)
    decreases |raw| - i
  {
    hide FieldOf, LineText, LineAt, SplitLine;
    if LineAt(raw, i) {
      var r := ReadLine(req, i, LineText(raw, i));
      if r.outcome == Incomplete {
        PastTarget(raw, NextLine(raw, i), r.req);
      }
    }
  }

  /** What the parser holds of such a request. */
  lemma Asked(chunks: seq<string>, h: Head, canOpen: string -> bool)
    requires chunks != [] && Asks(Flatten(chunks), h)
    ensures var r := Feed(FRESH, chunks, canOpen);
            && r.code == Dispatch && |r.conn.buf| == |Flatten(chunks)|
            && r.conn.meth == h.req.meth && r.conn.linger == h.req.linger && r.conn.cookie == h.req.cookie
            && Holds(r.conn.buf, r.conn.url, h.next, h.req.url) && !r.conn.body.At?
            && h.req.phase != RequestLine
  {
    hide ReadHead, Feed, Flatten, Holds;
    HeadOnly(chunks, canOpen);
    PastTarget(Flatten(chunks), 0, NONE_YET);
    InsideFeed(FRESH, chunks, canOpen);
  }

  /** The redirect, in terms of the path. */
  lemma Redirects(c: Conn, raw: string, h: Head)
    requires h == ReadHead(raw, 0, NONE_YET) && h.req.phase != RequestLine && |c.buf| == |raw|
    requires Holds(c.buf, c.url, h.next, h.req.url)
    ensures UrlText(c) == h.req.url.text && c.url.At?
    ensures Redirect(c).Some? && UrlText(Redirect(c).value) == Shown(h.req.url.text, c.cookie)
    ensures Redirected(c) == Redirect(c).value && Redirected(c).meth == c.meth && Redirected(c).body == c.body
  {
    hide ReadHead, CStr, StrEnd, EqNoCase, Overwrite;
    if Protected(h.req.url.text) && !c.cookie {
      RedirectFits(c, raw);
    }
  }

  lemma ErrorPage()
    ensures !EqNoCase("/logError.html", "/2") && !EqNoCase("/logError.html", "/3")
  {
  }

  lemma NotProtected(path: string)
    requires EqNoCase(path, "/2") || EqNoCase(path, "/3")
    ensures !Protected(path)
  {
  }

  /** A request for a file is looked up under the path shown, whatever its method. */
  lemma FileAsked(c: Conn, raw: string, h: Head, before: Page, w: World)
    requires h == ReadHead(raw, 0, NONE_YET) && h.req.phase != RequestLine && |c.buf| == |raw|
    requires Holds(c.buf, c.url, h.next, h.req.url) && !ForApi(c.meth, h.req.url.text)
    ensures var url := Shown(h.req.url.text, c.cookie);
            Requested(c, before, w) == Some(LookedUp(url, before.(linger := c.linger, url := url), w))
  {
    hide ReadHead, Holds, EqNoCase, Redirect, UrlText, LookedUp, Redirected;
    Redirects(c, raw, h);
    ErrorPage();
  }

  /** A call of the API without a form is refused. */
  lemma FormMissing(c: Conn, raw: string, h: Head, before: Page, w: World)
    requires h == ReadHead(raw, 0, NONE_YET) && h.req.phase != RequestLine && |c.buf| == |raw|
    requires Holds(c.buf, c.url, h.next, h.req.url) && ForApi(c.meth, h.req.url.text) && !c.body.At?
    ensures var d := Requested(c, before, w);
            d.Some? && d.value.code == WriteCode.BadRequest && d.value.users == w.users
  {
    hide ReadHead, Holds, EqNoCase, Redirect, UrlText, LookedUp, Redirected;
    Redirects(c, raw, h);
    NotProtected(h.req.url.text);
  }

  /** What `process` does with a request for a file, from any reads of its bytes: an existing
      file is to be sent, one that is missing or may not be read gets a status line, and
      a directory or an empty file closes the connection. */
  lemma FileServed(chunks: seq<string>, h: Head, before: Page, iov: seq<string>, w: World)
    requires chunks != [] && Asks(Flatten(chunks), h) && !ForApi(h.req.meth, h.req.url.text)
    ensures var url := Shown(h.req.url.text, h.req.cookie);
            var page := before.(linger := h.req.linger, url := url);
            var p := Processing(Feed(FRESH, chunks, w.canOpen), before, "", iov, w);
            && p.users == w.users
            && match w.look(url)
               case Missing =>
                 && p.after == AwaitWrite && p.size == before.fileSize
                 && p.produced == Some(Alone("HTTP/1.1 404 Not Found\r\n", page))
               case Unreadable(size) =>
                 && p.after == AwaitWrite && p.size == size
                 && p.produced == Some(Alone("HTTP/1.1 403 Forbidden\r\n", page))
               case Directory(_) => p.after == Closed
               case Regular(file) =>
                 if file == "" then p.after == Closed
                 else && p.after == AwaitWrite && p.size == |file|
                      && p.produced == Some(Produce(FilePage(page, file), FileRequest, "", iov))
  {
    hide ReadHead, Feed, Flatten, Holds, EqNoCase, Produce, Shown, Requested;
    Asked(chunks, h, w.canOpen);
    var r := Feed(FRESH, chunks, w.canOpen);
    FileAsked(r.conn, Flatten(chunks), h, before, w);
    var url := Shown(h.req.url.text, h.req.cookie);
    var page := before.(linger := h.req.linger, url := url);
    LookedUpMeans(url, page, iov, w);
  }

  function FilePage(page: Page, file: string): Page {
    page.(fileSize := |file|, mapped := Some(file))
  }

  lemma LookedUpMeans(url: string, page: Page, iov: seq<string>, w: World)
    ensures var p := Build(LookedUp(url, page, w), "", iov);
            && p.users == w.users
            && match w.look(url)
               case Missing =>
                 && p.after == AwaitWrite && p.size == page.fileSize
                 && p.produced == Some(Alone("HTTP/1.1 404 Not Found\r\n", page))
               case Unreadable(size) =>
                 && p.after == AwaitWrite && p.size == size
                 && p.produced == Some(Alone("HTTP/1.1 403 Forbidden\r\n", page))
               case Directory(_) => p.after == Closed
               case Regular(file) =>
                 if file == "" then p.after == Closed
                 else && p.after == AwaitWrite && p.size == |file|
                      && p.produced == Some(Produce(FilePage(page, file), FileRequest, "", iov))
  {
    match w.look(url)
    case Missing => hide Produce; StatusOnly(page, iov);
    case Unreadable(size) => hide Produce; StatusOnly(page.(fileSize := size), iov);
    case Directory(size) => hide Produce; StatusOnly(page.(fileSize := size), iov);
    case Regular(file) => hide ProducePage, Headed, Media, SizeAsInt;
  }

  /** A call of the API without a body closes the connection, and so does a malformed head. */
  lemma Refused(chunks: seq<string>, h: Head, before: Page, iov: seq<string>, w: World)
    requires chunks != [] && h == ReadHead(Flatten(chunks), 0, NONE_YET)
    requires h.outcome == Malformed || (h.outcome == Complete && ForApi(h.req.meth, h.req.url.text))
    ensures var p := Processing(Feed(FRESH, chunks, w.canOpen), before, "", iov, w);
            p.after == Closed && p.users == w.users
  {
    hide ReadHead, Feed, Flatten, Holds, EqNoCase, Requested;
    if h.outcome == Malformed {
      HeadOnly(chunks, w.canOpen);
    } else {
      Asked(chunks, h, w.canOpen);
      FormMissing(Feed(FRESH, chunks, w.canOpen).conn, Flatten(chunks), h, before, w);
    }
  }

  /** `process_read` never answers INTERNAL_ERROR: what the upload handler says is dropped. */
  lemma {:induction false} NeverInternal(c: Conn, status: LineStatus, canOpen: string -> bool)
    requires Valid(c)
    ensures Run(c, status, canOpen).code != Code.InternalError
    decreases |c.buf| - c.checked, if c.phase == Content && status == LineOk then 2 else 0
  {
    hide ParseRequestLine, ParseContent, ParseHeaderLine;
    if c.phase == Content && status == LineOk {
      HandleNeverInternal(c, canOpen);
    } else if Scan(c).status == LineOk {
      HandleNeverInternal(Scan(c).conn, canOpen);
    }
  }

  lemma {:induction false} HandleNeverInternal(c: Conn, canOpen: string -> bool)
    requires Valid(c) && (c.phase == Content || AfterLine(c, c.start))
    ensures Handle(c, canOpen).code != Code.InternalError
    decreases |c.buf| - c.checked, if c.phase == Content then 1 else 3
  {
    hide ParseRequestLine, ParseContent, FieldOf, Apply;
    var t := c.start;
    var d := c.(start := c.checked);
    match c.phase
    case RequestLine =>
      var r := ParseRequestLine(d, t);
      if r.code != Code.BadRequest {
        NeverInternal(r.conn, LineOk, canOpen);
      }
    case Header =>
      var r := ParseHeaderLine(d, t);
      if r.code == NoRequest {
        NeverInternal(r.conn, LineOk, canOpen);
      }
    case Content =>
      var r := ParseContent(d, t, canOpen);
      if r.code != Dispatch && r.code != Undefined {
        NeverInternal(r.conn, LineOpen, canOpen);
      }
  }

  /** A body posted elsewhere than to the API does not change that. */
  lemma BodyIgnored(chunks: seq<string>, h: Head, n: nat, before: Page, w: World)
    requires Announces(Flatten(chunks), h, n) && !h.req.multipart && Found(chunks, h, n).Some?
    requires !ForApi(h.req.meth, h.req.url.text)
    ensures var r := Feed(FRESH, chunks, w.canOpen);
            var url := Shown(h.req.url.text, h.req.cookie);
            && r.code == Dispatch
            && Requested(r.conn, before, w)
               == Some(LookedUp(url, before.(linger := h.req.linger, url := url), w))
  {
    hide ReadHead, Feed, Flatten, CStr, StrEnd, EqNoCase, Found, Requested, LookedUp;
    FormAnswered(chunks, h, n, w.canOpen);
    AnnouncesFacts(Flatten(chunks), h, n);
    FileAsked(Feed(FRESH, chunks, w.canOpen).conn, Flatten(chunks), h, before, w);
  }

  /** After an upload a visitor with the login cookie is shown the welcome page. */
  lemma WelcomeShown(r: Step, h: Head, file: Option<File>, before: Page, w: World)
    requires UploadGiven(r, h, file) && h.req.cookie
    ensures var page := before.(linger := r.conn.linger, url := "/welcome.html");
            Requested(r.conn, before, w) == Some(LookedUp("/welcome.html", page, w))
  {
    hide EqNoCase, LookedUp;
    WelcomeUrl(r.conn);
  }
}
