/** A login on a connection object: from the reads of its bytes to the bytes on the wire. */
module Conversation {
  import opened Basics
  import opened CString
  import opened RequestHead
  import opened HeadCuts
  import opened HeadMeaning
  import opened SplitBodies
  import opened Answers
  import opened DoRequest
  import opened Response
  import opened Sending
  import opened Replies
  import opened WrittenRequests
  import opened Service
  import opened Connections
  import opened HeaderForms
  import opened Files
  import HttpConnection

  /** The response fields of a connection that waits for a request. */
  function Waiting(fileSize: nat): Page {
    Page(false, false, false, None, "", fileSize, None)
  }

  /** An answer of the API, as `process` builds it on such a connection. */
  lemma ApiProcessed(r: Step, a: Answer, fileSize: nat, iov: seq<string>, w: World)
    requires r.code == Dispatch && r.conn.url.At? && UrlText(r.conn) == "/2"
    requires Decide(r.conn, w.users, w.dbOk) == Api(a) && a.Answer?
    ensures var page := ApiPage(a, r.conn.linger, "/2", fileSize);
            Processing(r, Waiting(fileSize), "", iov, w)
            == Processed(AwaitWrite, Some(Produce(page, GetRequest, "", [])), fileSize, a.users)
    ensures Produce(ApiPage(a, r.conn.linger, "/2", fileSize), GetRequest, "", []).iov
            == [ApiReplyBytes(a, r.conn.linger, "/2", fileSize)]
  {
    hide Decide, JsonText, Headed, Protected, UrlText, Reads;
    PathsDiffer();
    JsonTextShort(a.reply);
    JsonHead(ApiPage(a, r.conn.linger, "/2", fileSize), JsonText(a.reply), "");
  }

  lemma LastNotEmpty(chunks: seq<string>, used: nat)
    requires used < |chunks| && chunks[|chunks| - 1] != ""
    ensures Flatten(chunks[used..]) != ""
  {
    var t := chunks[used..];
    FlattenSplit(t, |t| - 1);
    assert t[|t| - 1..] == [chunks[|chunks| - 1]];
    assert Flatten([chunks[|chunks| - 1]]) == chunks[|chunks| - 1] + Flatten([]);
  }

  /** A form with nothing behind it is not complete before the last read. */
  lemma AllRead(chunks: seq<string>, h: Head, name: string, password: string, used: nat, canOpen: string -> bool)
    requires FormSent(chunks, h, name, password) && used <= |chunks| && chunks[|chunks| - 1] != ""
    requires h.next + |PrintForm(name, "password", password)| == |Flatten(chunks)|
    requires FormPlace(chunks, h, name, password) in {None, Some(0)}
    ensures used < |chunks| ==> Feed(FRESH, chunks[..used], canOpen).code == NoRequest
  {
    hide FormSent, FormPlace, Feed, Flatten, PrintForm, FormTaken, SamePointers, SameFields;
    var r := Feed(FRESH, chunks[..used], canOpen);
    if used < |chunks| && r.code != NoRequest {
      FormArrives(chunks, h, name, password, canOpen);
      FeedStops(FRESH, chunks, used, canOpen);
      InsideFeed(FRESH, chunks[..used], canOpen);
      LastNotEmpty(chunks, used);
      assert false;
    }
  }

  /** The form has come in its last read, and fits. */
  predicate InTime(chunks: seq<string>, name: string, password: string)
    requires chunks != []
  {
    |Before(chunks)| + |PrintForm(name, "password", password)| <= |Flatten(chunks)|
  }

  predicate FitsForm(name: string, password: string) {
    |name| <= 99 && |password| <= 99
  }

  /** What `process` makes of a login as a client writes it. */
  function LoginDone(chunks: seq<string>, name: string, password: string, fileSize: nat, w: World): Processed
    requires chunks != []
  {
    if !InTime(chunks, name, password) then Processed(AwaitRead, None, fileSize, w.users)
    else if !FitsForm(name, password) then Processed(Unknown, None, fileSize, w.users)
    else
      var page := ApiPage(Login(w.users, name, password), false, "/2", fileSize);
      Processed(AwaitWrite, Some(Produce(page, GetRequest, "", [])), fileSize, w.users)
  }

  lemma LoginProcessed(chunks: seq<string>, name: string, password: string, fileSize: nat, iov: seq<string>, w: World)
    requires Writes(chunks, "/2", name, password, "") && chunks[|chunks| - 1] != ""
    ensures Processing(Feed(FRESH, chunks, w.canOpen), Waiting(fileSize), "", iov, w)
            == LoginDone(chunks, name, password, fileSize, w)
  {
    hide InTime, FitsForm, Feed, Decide, UrlText, Redirected, Produce, FormRequest, Flatten, Plain, Login;
    LoginDecided(chunks, name, password, w);
    var r := Feed(FRESH, chunks, w.canOpen);
    if InTime(chunks, name, password) && FitsForm(name, password) {
      ApiProcessed(r, Login(w.users, name, password), fileSize, iov, w);
    }
  }

  lemma LoginDecided(chunks: seq<string>, name: string, password: string, w: World)
    requires Writes(chunks, "/2", name, password, "") && chunks[|chunks| - 1] != ""
    ensures var r := Feed(FRESH, chunks, w.canOpen);
            && r.code == (if InTime(chunks, name, password) then Dispatch else NoRequest)
            && (r.code == Dispatch ==>
                  && r.conn.url.At? && UrlText(r.conn) == "/2" && !r.conn.linger
                  && Decide(r.conn, w.users, w.dbOk)
                     == if FitsForm(name, password) then Api(Login(w.users, name, password)) else Wild)
  {
    hide Posts, FormPlace, FormTaken, Feed, Flatten, Before, PrintForm, FormRequest, Decide, SamePointers, UrlText;
    var h := WrittenPosts(chunks, "/2", name, password, "");
    PostInTime(chunks, h, name, password);
    if FormPlace(chunks, h, name, password) == Some(0) {
      LoginUrl(chunks, h, name, password, w);
    } else {
      NotTaken(chunks, h, name, password, w);
    }
  }

  lemma LoginUrl(chunks: seq<string>, h: Head, name: string, password: string, w: World)
    requires Posts(chunks, h, "/2", name, password) && FormPlace(chunks, h, name, password) == Some(0)
    ensures var r := Feed(FRESH, chunks, w.canOpen);
            && r.code == Dispatch && r.conn.url.At? && UrlText(r.conn) == "/2" && r.conn.linger == h.req.linger
            && Decide(r.conn, w.users, w.dbOk)
               == if FitsForm(name, password) then Api(Login(w.users, name, password)) else Wild
  {
    hide FormPlace, FormTaken, Feed, Flatten, PrintForm, SamePointers, UrlText, ReadHead, Decide, Login, Plain,
         SameFields;
    InPlace(chunks, h, "/2", name, password, w.users, w.dbOk, w.canOpen);
    UrlOf(chunks, h, name, password, w);
  }

  lemma UrlOf(chunks: seq<string>, h: Head, name: string, password: string, w: World)
    requires Posts(chunks, h, "/2", name, password) && FormPlace(chunks, h, name, password) == Some(0)
    ensures var c := Feed(FRESH, chunks, w.canOpen).conn;
            c.url.At? && UrlText(c) == "/2" && c.linger == h.req.linger
  {
    hide FormPlace, FormTaken, Feed, Flatten, PrintForm, SamePointers, UrlText, ReadHead;
    FormArrives(chunks, h, name, password, w.canOpen);
    AnnouncesFacts(Flatten(chunks), h, |PrintForm(name, "password", password)|);
    UrlRead(Feed(FRESH, chunks, w.canOpen).conn, h);
  }

  lemma NotTaken(chunks: seq<string>, h: Head, name: string, password: string, w: World)
    requires Posts(chunks, h, "/2", name, password) && FormPlace(chunks, h, name, password) == None
    ensures Feed(FRESH, chunks, w.canOpen).code == NoRequest
  {
    hide FormSent, FormPlace, FormTaken, Feed;
    FormArrives(chunks, h, name, password, w.canOpen);
  }

  /** No read but the last completes it. */
  lemma LoginWaits(chunks: seq<string>, name: string, password: string, w: World)
    requires Writes(chunks, "/2", name, password, "") && chunks[|chunks| - 1] != ""
    ensures forall k | 0 <= k < |chunks| :: Feed(FRESH, chunks[..k], w.canOpen).code == NoRequest
  {
    hide FormSent, FormPlace, Feed, Flatten, Before, PrintForm, FormRequest;
    var h := WrittenPosts(chunks, "/2", name, password, "");
    PostInTime(chunks, h, name, password);
    forall k | 0 <= k < |chunks| ensures Feed(FRESH, chunks[..k], w.canOpen).code == NoRequest {
      AllRead(chunks, h, name, password, k, w.canOpen);
    }
  }

  lemma AnswerBuilt(users: map<string, string>, name: string, password: string, size: nat, calls: seq<seq<nat>>)
    requires size < 0x7fff_0000
    ensures var a := Login(users, name, password);
            var p := Produce(ApiPage(a, false, "/2", size), GetRequest, "", []);
            && Session(Flat(p.iov), Total(|p.written|, size), calls) == ApiWire(a, false, "/2", size, calls)
            && (ApiSent(a, false, "/2", size, calls) ==>
                  (Reads(ApiWire(a, false, "/2", size, calls).wire, JsonText(LoginReply(users, name, password)),
                         name in users && users[name] == password)
                   <==> size == 0))
  {
    hide Reads, Session, Total, JsonText, Headed, AllTakesAll;
    var a := Login(users, name, password);
    var page := ApiPage(a, false, "/2", size);
    JsonTextShort(a.reply);
    JsonHead(page, JsonText(a.reply), "");
    FlatOne(ApiReplyBytes(a, false, "/2", size));
    if ApiSent(a, false, "/2", size, calls) {
      ApiAnswered(a, false, "/2", size, calls);
    }
  }

  /** A login as a client writes it, cut into reads in any way, on a connection that waits
      for a request, and then the calls of `write`: the answer is on the wire exactly if
      the form has come in its last read and fits.  If no writev is short it is read back,
      with the cookie exactly if name and password match, exactly if no file size was left
      on the object. */
  method LogIn(conn: Connection, chunks: seq<string>, name: string, password: string, calls: seq<seq<nat>>, w: World)
    returns (after: After)
    requires conn.Valid() && conn.parser.State() == FRESH && conn.response.Asked() == Waiting(conn.response.fileSize)
    requires conn.response.Written() == "" && conn.response.wire == "" && conn.response.fileSize < 0x7fff_0000
    requires Writes(chunks, "/2", name, password, "") && chunks[|chunks| - 1] != ""
    modifies conn.parser, conn.parser.readBuf, conn.response, conn.response.writeBuf
    ensures var size := old(conn.response.fileSize);
            var a := Login(w.users, name, password);
            && after == (if !InTime(chunks, name, password) then AwaitRead
                         else if FitsForm(name, password) then AwaitWrite else Unknown)
            && conn.response.wire == (if after == AwaitWrite then ApiWire(a, false, "/2", size, calls).wire else "")
            && (after == AwaitWrite && ApiSent(a, false, "/2", size, calls) ==>
                  (Reads(conn.response.wire, JsonText(LoginReply(w.users, name, password)),
                         name in w.users && w.users[name] == password)
                   <==> size == 0))
  {
    hide InTime, FitsForm, Feed, Flatten, PrintForm, FormRequest, Plain, Processing, ApiWire, ApiSent, Reads, JsonText,
         Inside, HttpConnection.HttpConn.Valid, Before, ProducePage, Session, Total;
    ghost var size, iov := conn.response.fileSize, conn.response.iov;
    var used, users;
    used, after, users := conn.Take(chunks, w);
    LoginWaits(chunks, name, password, w);
    LoginProcessed(chunks, name, password, size, iov, w);
    ReadingIs(Feed(FRESH, chunks[..used], w.canOpen), Waiting(size), "", iov, w);
    assert used == |chunks| && chunks[..used] == chunks;
    if after == AwaitWrite {
      AnswerBuilt(w.users, name, password, size, calls);
      var done, kept := conn.Respond(calls);
    }
  }

  // A file.

  /** The reads bring a GET as a client writes it, and nothing behind it. */
  predicate Gets(chunks: seq<string>, path: string, lines: seq<string>) {
    && chunks != [] && chunks[|chunks| - 1] != ""
    && Flatten(chunks) == WrittenGet(path, lines) && |Flatten(chunks)| < READ_SIZE
    && GetPath(path) && (forall k | 0 <= k < |lines| :: Proper(lines[k]))
    && FoldFields(NONE_YET, 0, lines).contentLength == 0
  }

  ghost predicate KeepsAlive(lines: seq<string>) {
    exists k :: 0 <= k < |lines| && KeepAliveLine(lines[k])
  }

  ghost predicate LoggedIn(lines: seq<string>) {
    exists k :: 0 <= k < |lines| && LoginLine(lines[k])
  }

  lemma GetAsked(chunks: seq<string>, path: string, lines: seq<string>) returns (h: Head)
    requires Gets(chunks, path, lines)
    ensures Asks(Flatten(chunks), h) && h.req.meth == GET && h.next == |Flatten(chunks)|
    ensures h.req.url.text == if path == "/" then "/index.html" else path
    ensures (h.req.linger <==> KeepsAlive(lines)) && (h.req.cookie <==> LoggedIn(lines))
  {
    hide ReadHead, WrittenGet, Flatten, FoldFields, Proper, KeepAliveLine, LoginLine, NoneNamed, GetPath;
    GetRead(path, lines);
    FoldSays(NONE_YET, 0, lines);
    h := ReadHead(Flatten(chunks), 0, NONE_YET);
  }

  /** No read but the last completes it. */
  lemma GetWaits(chunks: seq<string>, h: Head, used: nat, canOpen: string -> bool)
    requires Asks(Flatten(chunks), h) && h.next == |Flatten(chunks)|
    requires used < |chunks| && chunks[|chunks| - 1] != ""
    ensures Feed(FRESH, chunks[..used], canOpen).code == NoRequest
  {
    hide ReadHead, Feed, Flatten;
    var p, q := Flatten(chunks[..used]), Flatten(chunks[used..]);
    FlattenSplit(chunks, used);
    LastNotEmpty(chunks, used);
    HeadExtends(p, q, 0, NONE_YET);
    if used == 0 {
      NothingFed(World(map[], true, canOpen, _ => Missing), Waiting(0), "", []);
      assert chunks[..0] == [];
    } else {
      HeadOnly(chunks[..used], canOpen);
    }
  }

  /** `text` is sent, and if no writev is short, just once exactly if no file size is left. */
  ghost predicate TextOnWire(wire: string, done: bool, text: string, size: nat, calls: seq<seq<nat>>) {
    && Sent(wire, done) == Session(text, Total(|text|, size), calls)
    && (done && AllTakesAll(calls, |text|) && size < 0x7fff_0000 ==> (wire == text <==> size == 0))
  }

  /** The file is sent; if the first writev that sends anything takes all of the response, the
      client reads just these lines and that file. */
  ghost predicate FileOnWire(wire: string, done: bool, url: string, file: string, keep: bool, calls: seq<seq<nat>>) {
    var answer := FileAnswer(FilePage(Waiting(0).(linger := keep, url := url), file));
    && done == Session(answer, Total(|answer| - |file|, |file|), calls).done
    && (done && Positive(calls) && FirstTake(calls).Some? && FirstTake(calls).value >= |answer| ==>
          ReadReply(wire) == Reply(["HTTP/1.1 200 OK", "Content-Length: " + Decimal(|file|),
                                    "Content-Type:" + MediaType(url),
                                    if keep then "Connection: keep-alive" else "Connection: close"], file))
  }

  /** What is on the wire when `process` has armed the connection for writing. */
  lemma FileSends(page: Page, url: string, file: string, iov: seq<string>, calls: seq<seq<nat>>)
    requires page == FilePage(Waiting(page.fileSize).(linger := page.linger, url := url), file)
    requires 0 < |file| < 0x7fff_0000
    ensures var p := Produce(page, FileRequest, "", iov);
            var s := Session(Flat(p.iov), Total(|p.written|, |file|), calls);
            FileOnWire(s.wire, s.done, url, file, page.linger, calls)
  {
    hide Session, Total, ReadReply, Decimal, MediaType, Headed, Positive;
    assert page == FilePage(Waiting(0).(linger := page.linger, url := url), file);
    FileParts(page, iov);
    if Positive(calls) {
      FileWire(page, iov, calls);
    }
  }

  lemma FileParts(page: Page, iov: seq<string>)
    requires page.mapped.Some? && |page.mapped.value| == page.fileSize > 0
    ensures var p := Produce(page, FileRequest, "", iov);
            p.ok && Flat(p.iov) == FileAnswer(page) && 0 < |p.written| == |FileAnswer(page)| - page.fileSize <= 262
  {
    hide Headed, Media, SizeAsInt, ReadReply;
    FileHead(page, SizeAsInt(page.fileSize), "");
    HeadSize(page, SizeAsInt(page.fileSize));
    FlatTwo(Headed("", SizeAsInt(page.fileSize), Media(page), page.linger, page.setCookie), page.mapped.value);
  }

  lemma TextSends(text: string, size: nat, calls: seq<seq<nat>>)
    requires text != "" && |text| <= 1024
    ensures var s := Session(Flat([text]), Total(|text|, size), calls);
            TextOnWire(s.wire, s.done, text, size, calls)
  {
    hide Session, Total, AllTakesAll;
    FlatOne(text);
    var s := Session(text, Total(|text|, size), calls);
    if s.done && AllTakesAll(calls, |text|) && size < 0x7fff_0000 {
      TextSent(text, size, calls);
    }
  }

  /** The path a GET is shown. */
  ghost function Target(path: string, lines: seq<string>): string {
    Shown(if path == "/" then "/index.html" else path, LoggedIn(lines))
  }

  /** What is armed and sent for what the file system says of the path. */
  ghost predicate Fetched(look: Lookup, url: string, keep: bool, size: nat, calls: seq<seq<nat>>,
                          after: After, wire: string, done: bool)
  {
    match look
    case Missing => after == AwaitWrite && TextOnWire(wire, done, "HTTP/1.1 404 Not Found\r\n", size, calls)
    case Unreadable(n) => after == AwaitWrite && TextOnWire(wire, done, "HTTP/1.1 403 Forbidden\r\n", n, calls)
    case Directory(_) => after == Closed && wire == ""
    case Regular(file) =>
      if file == "" then after == Closed && wire == ""
      else after == AwaitWrite && (|file| < 0x7fff_0000 ==> FileOnWire(wire, done, url, file, keep, calls))
  }

  /** What is sent for what `process` has produced. */
  lemma ProducedSends(p: Processed, look: Lookup, url: string, keep: bool, size: nat, iov: seq<string>,
                      calls: seq<seq<nat>>)
    requires var page := Waiting(size).(linger := keep, url := url);
             match look
             case Missing =>
               && p.after == AwaitWrite && p.size == size
               && p.produced == Some(Alone("HTTP/1.1 404 Not Found\r\n", page))
             case Unreadable(n) =>
               && p.after == AwaitWrite && p.size == n
               && p.produced == Some(Alone("HTTP/1.1 403 Forbidden\r\n", page))
             case Directory(_) => p.after == Closed
             case Regular(file) =>
               if file == "" then p.after == Closed
               else && p.after == AwaitWrite && p.size == |file|
                    && p.produced == Some(Produce(FilePage(page, file), FileRequest, "", iov))
    ensures p.after == AwaitWrite ==>
              && p.produced.Some?
              && (p.size < 0x7fff_0000 ==> Total(|p.produced.value.written|, p.size) != 0)
              && var s := Session(Flat(p.produced.value.iov), Total(|p.produced.value.written|, p.size), calls);
                 Fetched(look, url, keep, size, calls, p.after, s.wire, s.done)
    ensures p.after != AwaitWrite ==> Fetched(look, url, keep, size, calls, p.after, "", false)
  {
    hide Session, Produce, TextOnWire, FileOnWire, Total;
    match look
    case Missing =>
      TextSends("HTTP/1.1 404 Not Found\r\n", size, calls);
      NotZero(|"HTTP/1.1 404 Not Found\r\n"|, size);
    case Unreadable(n) =>
      TextSends("HTTP/1.1 403 Forbidden\r\n", n, calls);
      NotZero(|"HTTP/1.1 403 Forbidden\r\n"|, n);
    case Directory(_) =>
    case Regular(file) =>
      var page := FilePage(Waiting(size).(linger := keep, url := url), file);
      if file != "" {
        FileParts(page, iov);
        NotZero(|Produce(page, FileRequest, "", iov).written|, |file|);
      }
      if 0 < |file| < 0x7fff_0000 {
        FileSends(page, url, file, iov, calls);
      }
  }

  lemma NotZero(written: nat, size: nat)
    requires 0 < written <= 1024
    ensures size < 0x7fff_0000 ==> Total(written, size) != 0
  {
  }

  lemma GetProcessed(chunks: seq<string>, path: string, lines: seq<string>, used: nat, size: nat, iov: seq<string>,
                     calls: seq<seq<nat>>, w: World)
    requires Gets(chunks, path, lines) && used <= |chunks|
    requires used < |chunks| ==> Feed(FRESH, chunks[..used], w.canOpen).code != NoRequest
    ensures var p := Processing(Feed(FRESH, chunks[..used], w.canOpen), Waiting(size), "", iov, w);
            var look, url := w.look(Target(path, lines)), Target(path, lines);
            && (p.after == AwaitWrite ==>
                  && p.produced.Some?
                  && (p.size < 0x7fff_0000 ==> Total(|p.produced.value.written|, p.size) != 0)
                  && var s := Session(Flat(p.produced.value.iov), Total(|p.produced.value.written|, p.size), calls);
                     Fetched(look, url, KeepsAlive(lines), size, calls, p.after, s.wire, s.done))
            && (p.after != AwaitWrite ==> Fetched(look, url, KeepsAlive(lines), size, calls, p.after, "", false))
    ensures Feed(FRESH, chunks[..used], w.canOpen).conn.linger <==> KeepsAlive(lines)
  {
    hide Gets, Feed, Flatten, Session, Produce, Fetched, Shown, KeepsAlive, LoggedIn, Processing, EqNoCase, Total,
         ReadHead;
    var h := GetAsked(chunks, path, lines);
    assert chunks != [] && chunks[|chunks| - 1] != "" by { GetEnds(chunks, path, lines); }
    if used < |chunks| {
      GetWaits(chunks, h, used, w.canOpen);
    }
    assert chunks[..used] == chunks;
    FileServed(chunks, h, Waiting(size), iov, w);
    Asked(chunks, h, w.canOpen);
    var url := Target(path, lines);
    ProducedSends(Processing(Feed(FRESH, chunks, w.canOpen), Waiting(size), "", iov, w), w.look(url), url,
                  KeepsAlive(lines), size, iov, calls);
  }

  lemma GetEnds(chunks: seq<string>, path: string, lines: seq<string>)
    requires Gets(chunks, path, lines)
    ensures chunks != [] && chunks[|chunks| - 1] != "" && |Flatten(chunks)| < READ_SIZE
  {
  }

  /** A GET as a client writes it, cut into reads in any way, on a connection that waits for a
      request, and then the calls of `write`: a file that exists is sent with its length and
      type, a missing or unreadable one is answered by a status line, a directory or an empty
      file closes the connection.  After the answer the connection is kept exactly if some
      header line says keep-alive. */
  method Fetch(conn: Connection, chunks: seq<string>, path: string, lines: seq<string>, calls: seq<seq<nat>>, w: World)
    returns (after: After, done: bool, kept: bool)
    requires conn.Valid() && conn.parser.State() == FRESH && conn.response.Asked() == Waiting(conn.response.fileSize)
    requires conn.response.Written() == "" && conn.response.wire == ""
    requires Gets(chunks, path, lines)
    modifies conn.parser, conn.parser.readBuf, conn.response, conn.response.writeBuf
    ensures Fetched(w.look(Target(path, lines)), Target(path, lines), KeepsAlive(lines), old(conn.response.fileSize),
                    calls, after, conn.response.wire, done)
    ensures conn.response.fileSize < 0x7fff_0000 ==> (kept <==> done && KeepsAlive(lines))
    ensures kept ==> && conn.Valid() && conn.parser.State() == FRESH && conn.response.Written() == ""
                     && conn.response.Asked() == Waiting(conn.response.fileSize)
  {
    hide Gets, Feed, Flatten, Session, Produce, Fetched, Target, KeepsAlive, LoggedIn, Processing, Inside, Total,
         HttpConnection.HttpConn.Valid;
    ghost var size, iov := conn.response.fileSize, conn.response.iov;
    GetEnds(chunks, path, lines);
    var used, users;
    used, after, users := conn.Take(chunks, w);
    ReadingIs(Feed(FRESH, chunks[..used], w.canOpen), Waiting(size), "", iov, w);
    GetProcessed(chunks, path, lines, used, size, iov, calls, w);
    done, kept := false, false;
    if after == AwaitWrite {
      done, kept := conn.Respond(calls);
      assert forall x: string :: "" + x == x;
    }
  }
}
