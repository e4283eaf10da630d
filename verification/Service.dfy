/** From the bytes of a request to the bytes of its answer: registration and login. */
module Service {
  import opened Basics
  import opened CString
  import opened RequestHead
  import opened HeadCuts
  import opened HeadMeaning
  import opened Requests
  import opened SplitBodies
  import opened Answers
  import opened DoRequest
  import opened Response
  import opened Sending
  import opened Replies
  import opened WrittenRequests
  import Multipart

  /** A form is posted to one of the API's two paths; anything may follow it. */
  predicate Posts(chunks: seq<string>, h: Head, path: string, name: string, password: string) {
    FormSent(chunks, h, name, password) && h.req.meth == POST && h.req.url.text == path
  }

  lemma UrlRead(c: Conn, h: Head)
    requires SamePointers(c.buf, c, h.next, h.req) && SameFields(c, h.req) && h.req.phase != RequestLine
    ensures UrlText(c) == h.req.url.text && c.url.At? && c.meth == h.req.meth && c.linger == h.req.linger
  {
    hide CStr, StrEnd;
  }

  lemma PathsDiffer()
    ensures !Protected("/2") && !Protected("/3")
    ensures EqNoCase("/2", "/2") && EqNoCase("/3", "/3") && !EqNoCase("/3", "/2")
  {
    assert |"/2"| == 2 && |"/3"| == 2;
    assert Lower("/3"[1]) != Lower("/2"[1]);
  }

  /** What `do_request` answers to the form `f` on one of the two paths. */
  function Answering(path: string, f: Form, users: map<string, string>, dbOk: bool): Decision {
    if f.Overrun? then Wild
    else
      var a := if path == "/2" then Login(users, f.name, f.password) else Register(users, f.name, f.password, dbOk);
      if a.Overflow? then Wild else Api(a)
  }

  lemma FormDecided(c: Conn, path: string, f: Form, users: map<string, string>, dbOk: bool)
    requires UrlText(c) == path && c.url.At? && (path == "/2" || path == "/3") && c.meth == POST && c.body.At?
    requires FormIn(BodyText(c), c.body.offset, READ_SIZE) == f
    ensures Decide(c, users, dbOk) == Answering(path, f, users, dbOk)
  {
    hide FormIn, BodyText, EqNoCase, Protected, UrlText, Register, Login;
    PathsDiffer();
  }

  /** What `do_request` makes of these reads, if they lead to it. */
  function Outcome(chunks: seq<string>, users: map<string, string>, dbOk: bool, canOpen: string -> bool)
    : Option<Decision>
  {
    var r := Feed(FRESH, chunks, canOpen);
    if r.code == Dispatch then Some(Decide(r.conn, users, dbOk)) else None
  }

  /** A posted form, in any reads and whatever follows, is answered as the bytes that the
      parser takes for its body demand; there is no answer if it takes none. */
  lemma PostDecided(chunks: seq<string>, h: Head, path: string, name: string, password: string,
                    users: map<string, string>, dbOk: bool, canOpen: string -> bool)
    requires Posts(chunks, h, path, name, password) && (path == "/2" || path == "/3")
    ensures var at := FormPlace(chunks, h, name, password);
            var n := |PrintForm(name, "password", password)|;
            && (at.Some? ==> h.next + at.value + n <= |Flatten(chunks)|)
            && Outcome(chunks, users, dbOk, canOpen)
               == if at.None? then None
                  else Some(Answering(path, FormTaken(Flatten(chunks), h, at.value, n), users, dbOk))
  {
    hide Feed, ReadHead, Flatten, PrintForm, Plain, FormPlace, FormTaken, FormIn, BodyText, Decide, Answering,
         UrlText, SamePointers;
    FormArrives(chunks, h, name, password, canOpen);
    AnnouncesFacts(Flatten(chunks), h, |PrintForm(name, "password", password)|);
    var r := Feed(FRESH, chunks, canOpen);
    if FormPlace(chunks, h, name, password).Some? {
      UrlRead(r.conn, h);
      FormDecided(r.conn, path, FormIn(BodyText(r.conn), r.conn.body.offset, READ_SIZE), users, dbOk);
    }
  }

  /** The form is found in its place: then the answer is that to name and password. */
  lemma InPlace(chunks: seq<string>, h: Head, path: string, name: string, password: string,
                users: map<string, string>, dbOk: bool, canOpen: string -> bool)
    requires Posts(chunks, h, path, name, password) && (path == "/2" || path == "/3")
    requires FormPlace(chunks, h, name, password) == Some(0)
    ensures Outcome(chunks, users, dbOk, canOpen)
            == Some(Answering(path,
                              if |name| <= FORM_MAX && |password| <= FORM_MAX then Form(name, password) else Overrun,
                              users, dbOk))
  {
    hide Feed, ReadHead, Flatten, PrintForm, Plain, FormPlace, FormTaken, Answering, Outcome;
    FormArrives(chunks, h, name, password, canOpen);
    PostDecided(chunks, h, path, name, password, users, dbOk, canOpen);
  }

  predicate Answered(o: Option<Decision>) {
    o.Some? && o.value.Api? && o.value.answer.Answer?
  }

  /** Login, from the bytes of the request to those of the response.  A login whose form is
      found in its place is answered exactly if both fields fit.  If no writev is short, its
      client reads the answer, with the cookie exactly if name and password match, exactly
      if no file size is left on the object: otherwise the answer comes more than once. */
  lemma LoginServed(chunks: seq<string>, h: Head, name: string, password: string,
                    users: map<string, string>, dbOk: bool, canOpen: string -> bool,
                    fileSize: nat, calls: seq<seq<nat>>)
    requires Posts(chunks, h, "/2", name, password) && FormPlace(chunks, h, name, password) == Some(0)
    requires fileSize < 0x7fff_0000
    ensures var o := Outcome(chunks, users, dbOk, canOpen);
            && (Answered(o) <==> |name| <= 99 && |password| <= 99)
            && (Answered(o) ==>
                  var a := o.value.answer;
                  ApiSent(a, h.req.linger, "/2", fileSize, calls) ==>
                    (ReadsAnswer(a, h.req.linger, "/2", fileSize, calls, LoginReply(users, name, password),
                                 name in users && users[name] == password)
                     <==> fileSize == 0))
  {
    hide Posts, FormPlace, Outcome, ApiSent, ReadsAnswer;
    InPlace(chunks, h, "/2", name, password, users, dbOk, canOpen);
    var a := Login(users, name, password);
    if ApiSent(a, h.req.linger, "/2", fileSize, calls) {
      AnswerRead(a, h.req.linger, "/2", fileSize, calls);
    }
  }

  /** What the calls of `write` put on the wire for `a` reads as the text of `reply`, with or
      without cookie. */
  predicate ReadsAnswer(a: Answer, linger: bool, url: string, fileSize: nat, calls: seq<seq<nat>>, reply: ApiReply,
                        cookie: bool)
    requires a.Answer?
  {
    Reads(ApiWire(a, linger, url, fileSize, calls).wire, JsonText(reply), cookie)
  }

  /** What a login is told. */
  function LoginReply(users: map<string, string>, name: string, password: string): ApiReply {
    if name in users && users[name] == password then LoginSuccess else LoginFailed
  }

  lemma AnswerRead(a: Answer, linger: bool, url: string, fileSize: nat, calls: seq<seq<nat>>)
    requires a.Answer? && ApiSent(a, linger, url, fileSize, calls) && fileSize < 0x7fff_0000
    ensures ReadsAnswer(a, linger, url, fileSize, calls, a.reply, a.setCookie) <==> fileSize == 0
  {
    hide Reads, ApiWire, ApiSent, JsonText;
    ApiAnswered(a, linger, url, fileSize, calls);
  }

  /** Registration, then login.  A registration whose form is found in its place is answered
      exactly if each field fits its buffer and, for a new name, both together the
      statement's.  It says which of three things has happened: a name that is taken keeps
      its password, an INSERT that fails changes nothing, and otherwise the name has the
      password, and nobody else's has changed.  After that the name logs in, by any request,
      with the password it then has and no other. */
  lemma RegisterThenLogin(first: seq<string>, h: Head, second: seq<string>, g: Head,
                          name: string, password: string, other: string,
                          users: map<string, string>, dbOk: bool, canOpen: string -> bool,
                          fileSize: nat, calls: seq<seq<nat>>, again: seq<seq<nat>>)
    requires Posts(first, h, "/3", name, password) && FormPlace(first, h, name, password) == Some(0)
    requires Posts(second, g, "/2", name, other) && FormPlace(second, g, name, other) == Some(0)
    requires |other| <= 99 && fileSize < 0x7fff_0000
    ensures var o := Outcome(first, users, dbOk, canOpen);
            && (Answered(o)
                <==> |name| <= 99 && |password| <= 99 && (name in users || |name| + |password| <= 150))
            && (Answered(o) ==>
                  var a := o.value.answer;
                  && a.users == (if name !in users && dbOk then users[name := password] else users)
                  && (ApiSent(a, h.req.linger, "/3", fileSize, calls) ==>
                        (ReadsAnswer(a, h.req.linger, "/3", fileSize, calls,
                                     if name in users then UserExists else if dbOk then RegSuccess else DbError, false)
                         <==> fileSize == 0))
                  && var right := if name in users then other == users[name] else dbOk && other == password;
                     var e := Outcome(second, a.users, dbOk, canOpen);
                     Answered(e)
                     && var b := e.value.answer;
                        ApiSent(b, g.req.linger, "/2", fileSize, again) ==>
                          (ReadsAnswer(b, g.req.linger, "/2", fileSize, again,
                                       if right then LoginSuccess else LoginFailed, right)
                           <==> fileSize == 0))
  {
    hide Posts, FormPlace, Outcome, ApiSent, ReadsAnswer, Register;
    InPlace(first, h, "/3", name, password, users, dbOk, canOpen);
    RegisterIs(users, name, password, dbOk);
    var a := Register(users, name, password, dbOk);
    if a.Answer? && |name| <= 99 {
      if ApiSent(a, h.req.linger, "/3", fileSize, calls) {
        AnswerRead(a, h.req.linger, "/3", fileSize, calls);
      }
      LoginServed(second, g, name, other, a.users, dbOk, canOpen, fileSize, again);
    }
  }

  lemma RegisterIs(users: map<string, string>, name: string, password: string, dbOk: bool)
    ensures var a := Register(users, name, password, dbOk);
            && (a.Overflow? <==> name !in users && |name| + |password| > 150)
            && (a.Answer? ==>
                  && a.users == (if name !in users && dbOk then users[name := password] else users)
                  && a.reply == (if name in users then UserExists else if dbOk then RegSuccess else DbError)
                  && !a.setCookie)
  {
    hide Statement;
    StatementLength(name, password);
  }

  /** The reads bring a form as a client writes it, cut in any way, and then `more`. */
  predicate Writes(chunks: seq<string>, path: string, name: string, password: string, more: string) {
    && chunks != [] && Flatten(chunks) == FormRequest(path, PrintForm(name, "password", password)) + more
    && |Flatten(chunks)| < READ_SIZE && Plain(name) && Plain(password)
  }

  lemma WrittenPosts(chunks: seq<string>, path: string, name: string, password: string, more: string)
    returns (h: Head)
    requires Writes(chunks, path, name, password, more) && PlainPath(path)
    ensures Posts(chunks, h, path, name, password) && !h.req.linger
    ensures h.next + |PrintForm(name, "password", password)| + |more| == |Flatten(chunks)|
  {
    hide ReadHead, PostRequest, PlainPath, Plain, Flatten, FoldFields, Proper;
    var body := PrintForm(name, "password", password);
    var raw := FormRequest(path, body);
    assert body != [] && |body| <= |raw| by { PostLength(path, [LengthLine(|body|)], body); }
    FormLines(|body|);
    PostRead(path, [LengthLine(|body|)], body);
    h := ReadHead(raw, 0, NONE_YET);
    HeadExtends(raw, more, 0, NONE_YET);
    assert (raw + more)[h.next..] == body + more;
  }

  lemma {:induction false} MessageLength(lines: seq<string>, body: string)
    ensures |body| <= |Message(lines, body)|
  {
    if lines != [] {
      MessageLength(lines[1..], body);
    }
  }

  lemma PostLength(path: string, lines: seq<string>, body: string)
    ensures |body| <= |PostRequest(path, lines, body)|
  {
    MessageLength(lines, body);
  }

  /** The login of a client, from what it writes to what it reads, with nothing written
      behind it: it is answered exactly if no read but the last brings any of the form and
      both fields fit. */
  lemma ClientLogin(chunks: seq<string>, name: string, password: string,
                    users: map<string, string>, dbOk: bool, canOpen: string -> bool,
                    fileSize: nat, calls: seq<seq<nat>>)
    requires Writes(chunks, "/2", name, password, "") && chunks[|chunks| - 1] != "" && fileSize < 0x7fff_0000
    ensures var o := Outcome(chunks, users, dbOk, canOpen);
            && (Answered(o) <==>
                  && |Before(chunks)| + |PrintForm(name, "password", password)| <= |Flatten(chunks)|
                  && |name| <= 99 && |password| <= 99)
            && (Answered(o) ==>
                  var a := o.value.answer;
                  ApiSent(a, false, "/2", fileSize, calls) ==>
                    (ReadsAnswer(a, false, "/2", fileSize, calls, LoginReply(users, name, password),
                                 name in users && users[name] == password)
                     <==> fileSize == 0))
  {
    hide Outcome, Posts, Before, ReadsAnswer, ApiSent, Flatten, PrintForm, FormPlace, FormRequest, FormTaken;
    var h := WrittenPosts(chunks, "/2", name, password, "");
    PostInTime(chunks, h, name, password);
    if FormPlace(chunks, h, name, password) == Some(0) {
      LoginServed(chunks, h, name, password, users, dbOk, canOpen, fileSize, calls);
    } else {
      PostDecided(chunks, h, "/2", name, password, users, dbOk, canOpen);
    }
  }

  lemma PostInTime(chunks: seq<string>, h: Head, name: string, password: string)
    requires Posts(chunks, h, "/2", name, password) && chunks != [] && chunks[|chunks| - 1] != ""
    requires h.next + |PrintForm(name, "password", password)| == |Flatten(chunks)|
    ensures FormPlace(chunks, h, name, password) == if |Before(chunks)| <= h.next then Some(0) else None
  {
    hide FormSent, FormPlace;
    FormOnTime(chunks, h, name, password);
  }

  // An upload.

  /** The reads bring one upload as a client writes it, of a body printed as one file part. */
  predicate Uploads(chunks: seq<string>, path: string, boundary: string, cookie: bool, body: string) {
    && chunks != [] && chunks[|chunks| - 1] != ""
    && Flatten(chunks) == UploadRequest(path, boundary, cookie, body)
    && |Flatten(chunks)| + |body| < 0x8000_0000
    && PlainPath(path) && OneLine(boundary) && |boundary| < 100 && body != ""
  }

  lemma UploadAnnounced(chunks: seq<string>, path: string, boundary: string, cookie: bool, body: string)
    returns (h: Head)
    requires Uploads(chunks, path, boundary, cookie, body)
    ensures Announces(Flatten(chunks), h, |body|) && h.req.multipart
    ensures h.req.boundary == boundary && h.req.cookie == cookie
    ensures h.next + |body| == |Flatten(chunks)| && Flatten(chunks)[h.next..] == body
  {
    hide ReadHead, PostRequest, PlainPath, OneLine, Flatten, FoldFields, Proper, UploadLines;
    UploadFields(boundary, cookie, |body|);
    PostRead(path, UploadLines(boundary, cookie, |body|), body);
    h := ReadHead(Flatten(chunks), 0, NONE_YET);
  }

  lemma PartBegins(boundary: string, before: string, name: string, after: string, data: string, tail: string)
    ensures var body := Multipart.Print(boundary, before, name, after, data, tail);
            body != "" && body[0] == '-'
  {
  }

  /** The upload of a client, from what it writes: it is stored, with its file name up to 99
      bytes and every data byte, exactly if no read but the last brings any of its body;
      and then it is answered with the welcome page exactly if the login cookie came with
      it, as otherwise the redirect is copied into a literal. */
  lemma ClientUpload(chunks: seq<string>, path: string, boundary: string, cookie: bool, body: string,
                     before: string, name: string, after: string, data: string, tail: string,
                     users: map<string, string>, dbOk: bool, canOpen: string -> bool)
    requires Uploads(chunks, path, boundary, cookie, body)
    requires body == Multipart.Print(boundary, before, name, after, data, tail)
    requires Multipart.Printable(boundary, before, name, after, data)
    requires canOpen(Multipart.Take(name, 99))
    ensures var r := Feed(FRESH, chunks, canOpen);
            var whole := |Before(chunks)| + |body| <= |Flatten(chunks)|;
            && r.code == (if whole then Dispatch else NoRequest)
            && (whole ==>
                  && r.conn.upload == Some(File(Multipart.Take(name, 99), data))
                  && Decide(r.conn, users, dbOk) == if cookie then Serve(r.conn) else Wild)
  {
    hide Feed, Flatten, ReadHead, Announces, Found, UploadRequest, PlainPath, OneLine,
         Multipart.Print, Multipart.Printable, Multipart.Take,
         Before, Decide, Uploaded;
    var h := UploadAnnounced(chunks, path, boundary, cookie, body);
    PartBegins(boundary, before, name, after, data, tail);
    UploadOnTime(chunks, h, body);
    UploadAnswered(chunks, h, |body|, canOpen, users, dbOk);
    AnnouncesFacts(Flatten(chunks), h, |body|);
    if Found(chunks, h, |body|) == Some(0) {
      PrintedUploaded(Flatten(chunks), h, body, before, name, after, data, tail, canOpen);
    }
  }

  lemma UploadOnTime(chunks: seq<string>, h: Head, body: string)
    requires chunks != [] && chunks[|chunks| - 1] != "" && Announces(Flatten(chunks), h, |body|)
    requires h.next <= |Flatten(chunks)| && Flatten(chunks)[h.next..] == body != "" && body[0] == '-'
    ensures h.next + |body| == |Flatten(chunks)|
    ensures Found(chunks, h, |body|) == if |Before(chunks)| <= h.next then Some(0) else None
  {
    hide ReadHead, Found;
    var raw, b := Flatten(chunks), Before(chunks);
    OneRequest(chunks, h, |body|);
    BeforeIsPrefix(chunks);
    assert raw[h.next] == raw[h.next..][0] == body[0];
    if |b| > h.next {
      assert b[h.next..][0] == b[h.next] == raw[h.next];
    }
  }
}
