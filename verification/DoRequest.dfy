/** `do_request`: the redirect of visitors who are not logged in, which rewrites
    the URL inside the request line, and the login and registration form.  What it does
    with a file after that is left to the caller. */
module DoRequest {
  import opened Basics
  import opened CString
  import opened RequestHead
  import opened HeadCuts
  import opened HeadMeaning
  import opened Requests
  import opened SplitBodies
  import opened Answers
  import Multipart

  // The redirect.

  const LOG_ERROR: string := "/logError.html\0"

  predicate Protected(url: string) {
    EqNoCase(url, "/welcome.html") || EqNoCase(url, "/media.html")
  }

  /** The text `m_url` points at. */
  function UrlText(c: Conn): string {
    match c.url
    case Null => ""
    case At(o) => if o <= |c.buf| then CStr(c.buf, o) else ""
    case Literal(text) => text
  }

  /** `strcpy(m_url, "/logError.html")`, where it applies.  None stands for a copy into a
      string literal, or past the bytes received. */
  function Redirect(c: Conn): (d: Option<Conn>)
    ensures d.Some? ==> d.value == c.(buf := d.value.buf) && |d.value.buf| == |c.buf|
  {
    if !Protected(UrlText(c)) || c.cookie then Some(c)
    else if c.url.At? && c.url.offset + |LOG_ERROR| <= |c.buf| then
      Some(c.(buf := Overwrite(c.buf, c.url.offset, LOG_ERROR)))
    else None
  }

  /** Header lines leave the URL alone. */
  lemma {:induction false} UrlKept(raw: string, i: nat, req: Request)
    requires i <= |raw| && req.phase == Header
    ensures ReadHead(raw, i, req).req.url == req.url && ReadHead(raw, i, req).req.phase != RequestLine
    decreases |raw| - i
  {
    hide FieldOf, LineText, LineAt;
    if LineAt(raw, i) {
      var r := ReadLine(req, i, LineText(raw, i));
      if r.outcome == Incomplete {
        UrlKept(raw, NextLine(raw, i), r.req);
      }
    }
  }

  /** Once the request line is read, the URL is the path in the first line of the
      input, which still has eleven bytes of version and line end behind it. */
  lemma UrlInFirstLine(raw: string)
    requires ReadHead(raw, 0, NONE_YET).req.phase != RequestLine
    ensures LineAt(raw, 0)
    ensures var url := ReadHead(raw, 0, NONE_YET).req.url;
            var x := SplitLine(LineText(raw, 0));
            && x.Target? && url.at == x.u && url.text == PathOf(LineText(raw, 0)[x.u..x.v])
            && x.v + 11 <= NextLine(raw, 0)
  {
    hide SplitLine, LineText, LineAt, PathOf;
    var s := LineText(raw, 0);
    assert LineAt(raw, 0);
    TextInLine(raw, 0);
    var r := ReadLine(NONE_YET, 0, s);
    if r.outcome == Incomplete {
      UrlKept(raw, NextLine(raw, 0), r.req);
    }
  }

  lemma TextInLine(raw: string, i: nat)
    requires i <= |raw| && LineAt(raw, i)
    ensures i + |LineText(raw, i)| + 2 <= NextLine(raw, i)
  {
  }

  /** The URL never reaches the later rewrite of "/" to "/index.html". */
  lemma NeverLoneSlash(raw: string)
    requires ReadHead(raw, 0, NONE_YET).req.phase != RequestLine
    ensures ReadHead(raw, 0, NONE_YET).req.url.text != "/"
  {
    hide SplitLine, LineText, LineAt, ReadHead;
    UrlInFirstLine(raw);
  }

  /** The redirect stays inside the request line: its last byte lies before the
      first header line, and the URL now reads "/logError.html". */
  lemma RedirectFits(c: Conn, raw: string)
    requires var h := ReadHead(raw, 0, NONE_YET);
             h.req.phase != RequestLine && |c.buf| == |raw| && Holds(c.buf, c.url, h.next, h.req.url)
    requires Protected(CStr(c.buf, c.url.offset)) && !c.cookie
    ensures LineAt(raw, 0) && c.url.offset + |LOG_ERROR| <= NextLine(raw, 0) <= |c.buf|
    ensures Redirect(c).Some?
    ensures var d := Redirect(c).value;
            && CStr(d.buf, c.url.offset) == "/logError.html"
            && (forall k | NextLine(raw, 0) <= k < |c.buf| :: d.buf[k] == c.buf[k])
            && (forall k | 0 <= k < c.url.offset :: d.buf[k] == c.buf[k])
  {
    hide SplitLine, LineText, LineAt, ReadHead, Overwrite, NextLine, CStr, StrEnd, Protected;
    RedirectRoom(raw);
    RedirectBytes(c.buf, c.url.offset);
  }

  lemma RedirectRoom(raw: string)
    requires ReadHead(raw, 0, NONE_YET).req.phase != RequestLine
    requires Protected(ReadHead(raw, 0, NONE_YET).req.url.text)
    ensures LineAt(raw, 0)
    ensures ReadHead(raw, 0, NONE_YET).req.url.at + |LOG_ERROR| <= NextLine(raw, 0)
  {
    hide SplitLine, LineText, LineAt, ReadHead, NextLine, Protected;
    UrlInFirstLine(raw);
    ProtectedLength(ReadHead(raw, 0, NONE_YET).req.url.text);
    IndexNotProtected();
  }

  lemma RedirectBytes(b: string, o: nat)
    requires o + |LOG_ERROR| <= |b|
    ensures var d := Overwrite(b, o, LOG_ERROR);
            && CStr(d, o) == "/logError.html"
            && (forall k | 0 <= k < o :: d[k] == b[k])
            && (forall k | o + |LOG_ERROR| <= k < |b| :: d[k] == b[k])
  {
    hide Overwrite, CStr;
    OverwriteEach(b, o, LOG_ERROR);
    ErrorAt(Overwrite(b, o, LOG_ERROR), o);
  }

  lemma ProtectedLength(url: string)
    requires Protected(url)
    ensures |url| == 13 || |url| == 11
  {
  }

  lemma IndexNotProtected()
    ensures !Protected("/index.html")
  {
    assert Lower("/index.html"[1]) != Lower("/media.html"[1]);
  }

  lemma ErrorAt(b: string, o: nat)
    requires o + |LOG_ERROR| <= |b|
    requires forall j | 0 <= j < |LOG_ERROR| :: b[o + j] == LOG_ERROR[j]
    ensures CStr(b, o) == "/logError.html"
  {
    var w := "/logError.html";
    assert b[o + 14] == LOG_ERROR[14];
    forall j | 0 <= j < |w| ensures b[o + j] == w[j] {
      assert b[o + j] == LOG_ERROR[j];
    }
    CStrIs(b, o, w);
  }

  /** The earlier rewrite, of an accepted "/" to "/index.html", fits too: its last byte
      is the second byte of the line end, or lies before it if the line held a NUL. */
  lemma IndexFits(c: Conn, t: nat)
    requires AfterLine(c, t) && SplitLine(CStr(c.buf, t)).Target?
    requires var x := SplitLine(CStr(c.buf, t)); x.v == x.u + 1
    ensures var x := SplitLine(CStr(c.buf, t));
            var last := t + x.v + |INDEX| - 1;
            && last == t + |CStr(c.buf, t)| + 1 < c.checked
            && ((forall k | t <= k < c.checked - 2 :: c.buf[k] != NUL) ==> last == c.checked - 1)
    ensures var d := ParseRequestLine(c, t).conn;
            && d.url.At? && CStr(d.buf, d.url.offset) == "/index.html"
            && (forall k | c.checked <= k < |c.buf| :: d.buf[k] == c.buf[k])
            && (forall k | 0 <= k < t :: d.buf[k] == c.buf[k])
  {
    hide *;
    var x, s := SplitLine(CStr(c.buf, t)), CStr(c.buf, t);
    IndexRoom(c, t, s, x);
    AcceptedConn(c, t, x);
    PathBytes(c, t, s, x);
    AcceptedUrl(c.buf, t, c.checked, x.p, x.v, x.u, s[x.u..x.v]);
    IndexHeld(AcceptedBytes(c.buf, t, x.p, x.v, x.u), t + x.u, c.checked, s[x.u..x.v]);
  }

  lemma IndexRoom(c: Conn, t: nat, s: string, x: Split)
    requires AfterLine(c, t) && s == CStr(c.buf, t) && SplitFits(x, |s|) && x.Target?
    ensures x.p < x.u < x.v && x.v + 9 == |s| && |INDEX| == 11 && t + |s| + 2 <= c.checked <= |c.buf|
    ensures c.buf[c.checked - 1] == NUL
    ensures (forall k | t <= k < c.checked - 2 :: c.buf[k] != NUL) ==> t + |s| + 2 == c.checked
  {
    LineEndsInside(c, t);
  }

  lemma AcceptedConn(c: Conn, t: nat, x: Split)
    requires AfterLine(c, t) && x == SplitLine(CStr(c.buf, t)) && x.Target?
    requires x.p < x.u < x.v && t + x.v + |INDEX| <= |c.buf|
    ensures ParseRequestLine(c, t).conn == Accept(c, t, x.m, x.p, x.v, x.u)
    ensures ParseRequestLine(c, t).conn.buf == AcceptedBytes(c.buf, t, x.p, x.v, x.u)
    ensures ParseRequestLine(c, t).conn.url == At(t + x.u)
  {
    hide SplitLine, AcceptedBytes, CStr, StrEnd;
  }

  lemma PathBytes(c: Conn, t: nat, s: string, x: Split)
    requires t <= |c.buf| && s == CStr(c.buf, t) && x == SplitLine(s) && x.Target?
    ensures var path := s[x.u..x.v];
            && |path| == x.v - x.u && NUL !in path && path[0] == '/'
            && forall j | 0 <= j < |path| :: c.buf[t + x.u + j] == path[j]
  {
    hide SplitLine;
    var path := s[x.u..x.v];
    assert forall k | 0 <= k < |path| :: c.buf[t + x.u + k] == c.buf[t..t + |s|][x.u + k] == path[k];
  }

  lemma IndexHeld(b: string, i: nat, n: nat, path: string)
    requires Holds(b, At(i), n, Held(i, PathOf(path))) && path == "/"
    ensures i <= |b| && CStr(b, i) == "/index.html"
  {
  }

  // The form.

  const NAME_AT: nat := 5
  const PASSWORD_SKIP: nat := 10
  const FORM_MAX: nat := 99

  /** `Overrun`: the name or password does not fit its 100-byte buffer. */
  datatype Form = Form(name: string, password: string) | Overrun

  function NameEnd(s: string): (i: nat)
    ensures i >= NAME_AT
  {
    if |s| < NAME_AT then NAME_AT else FirstOf(s, NAME_AT, {'&'})
  }

  function PasswordFrom(s: string, j: nat): string {
    if |s| < j then "" else s[j..FirstOf(s, j, {'&', NUL})]
  }

  /** The fields of a form body, by position: the name starts at byte 5 and ends at
      the first '&', the password starts ten bytes after that.  As a key of the user
      table the name counts up to its first NUL. */
  function FormOf(s: string): (f: Form) {
    var i := NameEnd(s);
    var name := if |s| < NAME_AT then "" else s[NAME_AT..i];
    var password := PasswordFrom(s, i + PASSWORD_SKIP);
    if |name| > FORM_MAX || |password| > FORM_MAX then Overrun else Form(Cut(name), password)
  }

  /** The same in a buffer of `size` bytes.  The first byte of the password is looked at
      even where the body has ended, which may be outside the buffer. */
  function FormIn(s: string, at: nat, size: nat): (f: Form) {
    if at + NameEnd(s) + PASSWORD_SKIP >= size then Overrun else FormOf(s)
  }

  /** The loops of `do_request` over the body at `at`.  They test a byte before they
      test its position; a byte outside the buffer is an `Overrun` too. */
  method ReadForm(buf: array<char>, at: nat, n: nat) returns (f: Form)
    requires at + n < buf.Length
    ensures f == FormIn(buf[at..at + n], at, buf.Length)
  {
    ghost var s := buf[at..at + n];
    var name := "";
    var i := NAME_AT;
    if at + i >= buf.Length {
      return Overrun;
    }
    while buf[at + i] != '&' && i < n
      invariant NAME_AT <= i && (i <= n || i == NAME_AT) && at + i < buf.Length
      invariant i <= n ==> name == s[NAME_AT..i] && forall k | NAME_AT <= k < i :: s[k] != '&'
      invariant n < i ==> name == ""
      decreases n - i
    {
      assert i < n && buf[at + i] == s[i] && s[NAME_AT..i + 1] == s[NAME_AT..i] + [s[i]];
      name := name + [buf[at + i]];
      i := i + 1;
    }
    assert i == NameEnd(s) by {
      if n >= NAME_AT { FirstOfUnique(s, NAME_AT, {'&'}, i); }
    }
    i := i + PASSWORD_SKIP;
    if at + i >= buf.Length {
      return Overrun;
    }
    ghost var j := i;
    var password := "";
    while buf[at + i] != NUL && buf[at + i] != '&' && i < n
      invariant j <= i && (i <= n || i == j) && at + i < buf.Length
      invariant i <= n ==> password == s[j..i] && forall k | j <= k < i :: s[k] != '&' && s[k] != NUL
      invariant n < i ==> password == ""
      decreases n - i
    {
      assert i < n && buf[at + i] == s[i] && s[j..i + 1] == s[j..i] + [s[i]];
      password := password + [buf[at + i]];
      i := i + 1;
    }
    assert n >= j ==> i == FirstOf(s, j, {'&', NUL}) by {
      if n >= j { FirstOfUnique(s, j, {'&', NUL}, i); }
    }
    if |name| > FORM_MAX || |password| > FORM_MAX {
      return Overrun;
    }
    return Form(Cut(name), password);
  }

  function PrintForm(name: string, key: string, password: string): string {
    "user=" + name + "&" + key + "=" + password
  }

  predicate Plain(s: string) {
    '&' !in s && NUL !in s
  }

  /** Which bytes of a printed form are taken for the password. */
  lemma PasswordTaken(name: string, key: string, password: string)
    requires Plain(name) && Plain(key) && Plain(password)
    ensures var rest := key + "=" + password;
            var taken := if |rest| < 9 then "" else rest[9..];
            FormOf(PrintForm(name, key, password))
            == if |name| > FORM_MAX || |taken| > FORM_MAX then Overrun else Form(name, taken)
  {
    hide PasswordFrom, NameEnd, Cut;
    var rest := key + "=" + password;
    var s := PrintForm(name, key, password);
    var head := "user=" + name;
    assert s == head + ("&" + rest);
    NameTaken(s, name, "&" + rest);
    PasswordTail(s, head, rest);
    CutPlain(name);
  }

  lemma PasswordTail(s: string, head: string, rest: string)
    requires s == head + ("&" + rest) && Plain(rest)
    ensures PasswordFrom(s, |head| + 10) == if |rest| < 9 then "" else rest[9..]
  {
    var j := |head| + 10;
    if |rest| >= 9 {
      var tail := s[j..];
      assert tail == rest[9..];
      assert forall k | j <= k < |s| :: s[k] == tail[k - j] && tail[k - j] in rest;
      FirstOfUnique(s, j, {'&', NUL}, |s|);
    }
  }

  lemma NameTaken(s: string, name: string, more: string)
    requires s == ("user=" + name) + more && '&' !in name && more != [] && more[0] == '&'
    ensures NameEnd(s) == 5 + |name| && s[5..5 + |name|] == name
  {
    var i := 5 + |name|;
    assert forall k | 5 <= k < i :: s[k] == name[k - 5];
    assert s[i] == more[0];
    FirstOfUnique(s, 5, {'&'}, i);
  }

  /** What any form means, byte by byte: five bytes are skipped, the name runs to the first
      '&', ten bytes are skipped from there, the password runs to the next '&' or NUL; a form
      that ends early has empty fields.  Either field overruns its buffer from 100 bytes on. */
  lemma FormMeans(head: string, name: string, gap: string, password: string, rest: string)
    requires |head| <= 5 && (|head| < 5 ==> name == gap == "")
    requires '&' !in name && (gap != "" ==> gap[0] == '&')
    requires |gap| <= 10 && (|gap| < 10 ==> password == rest == "")
    requires Plain(password) && (rest != "" ==> rest[0] == '&' || rest[0] == NUL)
    ensures FormOf(head + (name + (gap + (password + rest))))
            == if |name| >= 100 || |password| >= 100 then Overrun else Form(Cut(name), password)
  {
    hide FirstOf, Cut, NameEnd, PasswordFrom;
    var s := head + (name + (gap + (password + rest)));
    if |head| < 5 {
      assert s == head;
      ShortForm(s);
    } else {
      var more := gap + (password + rest);
      assert more != "" ==> gap != "" && more[0] == gap[0];
      NamePart(s, head, name, more);
      if |gap| == 10 {
        var front := head + (name + gap);
        assert s == front + (password + rest);
        PasswordPart(s, front, password, rest);
      } else {
        assert more == gap;
        ShortPassword(s, 5 + |name| + 10);
      }
    }
  }

  lemma ShortForm(s: string)
    requires |s| < 5
    ensures FormOf(s) == Form(Cut(""), "")
  {
  }

  lemma ShortPassword(s: string, j: nat)
    requires |s| < j
    ensures PasswordFrom(s, j) == ""
  {
  }

  lemma NamePart(s: string, head: string, name: string, more: string)
    requires |head| == 5 && s == head + (name + more) && '&' !in name && (more != "" ==> more[0] == '&')
    ensures NameEnd(s) == 5 + |name| <= |s| && s[5..5 + |name|] == name
  {
    var i := 5 + |name|;
    assert forall k | 5 <= k < i :: s[k] == name[k - 5];
    assert more != "" ==> s[i] == more[0];
    FirstOfUnique(s, 5, {'&'}, i);
  }

  lemma PasswordPart(s: string, front: string, password: string, rest: string)
    requires s == front + (password + rest) && Plain(password)
    requires rest != "" ==> rest[0] == '&' || rest[0] == NUL
    ensures PasswordFrom(s, |front|) == password
  {
    var j := |front|;
    assert forall k | j <= k < j + |password| :: s[k] == password[k - j];
    assert rest != "" ==> s[j + |password|] == rest[0];
    FirstOfUnique(s, j, {'&', NUL}, j + |password|);
  }

  /** A form is read back exactly when name and password fit their buffers and the
      password's key has eight bytes, as "password" has, or an empty password follows a
      shorter key. */
  lemma FormRoundTrip(name: string, key: string, password: string)
    requires Plain(name) && Plain(key) && Plain(password)
    ensures FormOf(PrintForm(name, key, password)) == Form(name, password)
            <==> |name| <= 99 && |password| <= 99 && (|key| == 8 || (|key| < 8 && password == ""))
  {
    hide FormOf, PrintForm;
    PasswordTaken(name, key, password);
    var rest := key + "=" + password;
    assert |rest| == |key| + 1 + |password|;
    if |key| == 8 {
      assert rest[9..] == password;
    }
  }

  /** The request the design document gives as its example does not have such a
      key: only the last byte of the password arrives. */
  lemma DocumentedForm()
    ensures FormOf("user=abc&passwd=123") == Form("abc", "3")
  {
    hide FormOf;
    PasswordTaken("abc", "passwd", "123");
    DocumentedText();
  }

  lemma DocumentedText()
    ensures PrintForm("abc", "passwd", "123") == "user=abc&passwd=123"
    ensures ("passwd" + "=" + "123")[9..] == "3"
  {
  }

  // Login and registration against the user table.

  const INSERT: string := "INSERT INTO user(username, passwd) VALUES('"
  const STATEMENT_SIZE: nat := 200

  /** The SQL statement that `sprintf` prints into a block of STATEMENT_SIZE bytes. */
  function Statement(name: string, password: string): string {
    INSERT + name + "', '" + password + "')"
  }

  datatype ApiReply = RegSuccess | DbError | UserExists | LoginSuccess | LoginFailed

  /** `Overflow`: the statement does not fit its block. */
  datatype Answer = Answer(users: map<string, string>, reply: ApiReply, setCookie: bool) | Overflow

  /** `dbOk` is the outcome of the INSERT. */
  function Register(users: map<string, string>, name: string, password: string, dbOk: bool): Answer {
    if name in users then Answer(users, UserExists, false)
    else if |Statement(name, password)| + 1 > STATEMENT_SIZE then Overflow
    else if dbOk then Answer(users[name := password], RegSuccess, false)
    else Answer(users, DbError, false)
  }

  function Login(users: map<string, string>, name: string, password: string): (a: Answer)
    ensures a.Answer? && a.users == users
  {
    if name in users && users[name] == password then Answer(users, LoginSuccess, true)
    else Answer(users, LoginFailed, false)
  }

  lemma StatementLength(name: string, password: string)
    ensures |Statement(name, password)| == 49 + |name| + |password|
  {
    assert |INSERT| == 43;
  }

  /** Whether a name and password were registered, and log in afterwards. */
  predicate LogsIn(users: map<string, string>, name: string, password: string) {
    var f := FormOf(PrintForm(name, "password", password));
    f.Form?
    && var a := Register(users, f.name, f.password, true);
       a.Answer? && a.reply == RegSuccess && Login(a.users, name, password).setCookie
  }

  /** Form in, form again, cookie out: a new name and its password register and then log
      in exactly if each fits its buffer and both together the statement's.  Then no other
      password does, and nobody else's changes. */
  lemma RegisteredLogsIn(users: map<string, string>, name: string, password: string, other: string)
    requires Plain(name) && Plain(password) && name !in users
    ensures LogsIn(users, name, password)
            <==> |name| <= 99 && |password| <= 99 && |name| + |password| <= 150
    ensures LogsIn(users, name, password) ==>
              var a := Register(users, name, password, true);
              && a.Answer? && (Login(a.users, name, other).setCookie <==> other == password)
              && (forall n | n in users :: n in a.users && a.users[n] == users[n])
  {
    hide FormOf, PrintForm, Statement;
    FormRoundTrip(name, "password", password);
    PasswordTaken(name, "password", password);
    StatementLength(name, password);
    var rest := "password" + "=" + password;
    assert rest[9..] == password;
  }

  /** A name that is taken stays with its password, whatever the INSERT would have given; and
      an INSERT that fails registers nobody. */
  lemma NotRegistered(users: map<string, string>, name: string, password: string, dbOk: bool, other: string)
    requires name in users || (!dbOk && |name| + |password| <= 150)
    ensures var a := Register(users, name, password, dbOk);
            && a.Answer? && a.users == users && !a.setCookie
            && a.reply == (if name in users then UserExists else DbError)
            && (Login(a.users, name, other).setCookie <==> name in users && other == users[name])
  {
    hide Statement;
    StatementLength(name, password);
  }

  // The whole of it.

  const READ_SIZE: nat := 1048576

  /** `Refused`: no URL, or a POST to the API without a form.  `Serve`: the file at the URL is looked
      up.  `Wild`: C++ does not define what happens. */
  datatype Decision = Refused | Api(answer: Answer) | Serve(conn: Conn) | Wild

  /** The bytes at `m_string`. */
  function BodyText(c: Conn): string {
    if c.body.At? && 0 <= c.contentLength && c.body.offset + c.contentLength <= |c.buf| then
      c.buf[c.body.offset..c.body.offset + c.contentLength]
    else ""
  }

  /** `do_request` up to the file look-up. */
  function Decide(c: Conn, users: map<string, string>, dbOk: bool): Decision {
    if c.url.Null? then Refused
    else
      match Redirect(c)
      case None => Wild
      case Some(d) =>
        var url := UrlText(d);
        if d.meth == POST && (EqNoCase(url, "/2") || EqNoCase(url, "/3")) then Formed(d, url, users, dbOk)
        else Serve(d)
  }

  /** A request to the API. */
  function Formed(d: Conn, url: string, users: map<string, string>, dbOk: bool): (r: Decision)
    ensures !r.Serve? && (r.Api? ==> r.answer.Answer?)
  {
    if !d.body.At? then Refused
    else
      match FormIn(BodyText(d), d.body.offset, READ_SIZE)
      case Overrun => Wild
      case Form(name, password) =>
        if EqNoCase(url, "/2") then Api(Login(users, name, password))
        else
          var a := Register(users, name, password, dbOk);
          if a.Overflow? then Wild else Api(a)
  }

  lemma WelcomeUrl(c: Conn)
    requires c.url == Literal(WELCOME)
    ensures Protected(UrlText(c)) && !EqNoCase(UrlText(c), "/2") && !EqNoCase(UrlText(c), "/3")
  {
  }

  /** An upload that the parser finds and stores is answered, with the welcome page,
      exactly if the visitor is logged in: without the login cookie the redirect is copied
      into the literal.  An upload that it does not find, or finds without a file, is not
      answered, the latter if nothing follows. */
  lemma UploadAnswered(chunks: seq<string>, h: Head, n: nat, canOpen: string -> bool,
                       users: map<string, string>, dbOk: bool)
    requires Announces(Flatten(chunks), h, n) && h.req.multipart
    ensures var at := Found(chunks, h, n);
            var r := Feed(FRESH, chunks, canOpen);
            && (at.None? ==> r.code == NoRequest)
            && (at.Some? ==>
                  && h.next + at.value + n <= |Flatten(chunks)|
                  && var file := Uploaded(Flatten(chunks), h, at.value, n, canOpen);
                     && (file.Some? ==>
                           && UploadGiven(r, h, file)
                           && Decide(r.conn, users, dbOk) == if h.req.cookie then Serve(r.conn) else Wild)
                     && (file.None? && |Flatten(chunks)| == h.next + n && chunks[|chunks| - 1] != "" ==>
                           r.code == NoRequest))
  {
    assert Valid(FRESH);
    hide Feed, Flatten, ReadHead, Found, Uploaded, Decide, Valid;
    UploadDispatched(chunks, h, n, canOpen);
    var r := Feed(FRESH, chunks, canOpen);
    if r.conn.url == Literal(WELCOME) {
      WelcomeDecision(r.conn, users, dbOk);
    }
  }

  lemma WelcomeDecision(c: Conn, users: map<string, string>, dbOk: bool)
    requires c.url == Literal(WELCOME)
    ensures Decide(c, users, dbOk) == if c.cookie then Serve(c) else Wild
  {
    hide EqNoCase, Protected, UrlText, FormIn, Register;
    WelcomeUrl(c);
  }

  /** The reads bring a request whose body is a printed form, and anything behind it, and
      the buffer has room. */
  predicate FormSent(chunks: seq<string>, h: Head, name: string, password: string) {
    var body := PrintForm(name, "password", password);
    && Announces(Flatten(chunks), h, |body|) && body <= Flatten(chunks)[h.next..]
    && |Flatten(chunks)| < READ_SIZE && !h.req.multipart && Plain(name) && Plain(password)
  }

  /** Where the parser finds a posted form. */
  function FormPlace(chunks: seq<string>, h: Head, name: string, password: string): Option<nat> {
    Found(chunks, h, |PrintForm(name, "password", password)|)
  }

  /** What the form reader makes of the bytes `at` behind the head. */
  function FormTaken(raw: string, h: Head, at: nat, n: nat): Form
    requires h.next + at + n <= |raw|
  {
    FormIn(raw[h.next + at..h.next + at + n], h.next + at, READ_SIZE)
  }

  /** A printed form is answered exactly if the parser finds it somewhere, and read
      unharmed if that is its place. */
  lemma FormArrives(chunks: seq<string>, h: Head, name: string, password: string, canOpen: string -> bool)
    requires FormSent(chunks, h, name, password)
    ensures var at := FormPlace(chunks, h, name, password);
            var n := |PrintForm(name, "password", password)|;
            var r := Feed(FRESH, chunks, canOpen);
            && r.code == (if at.Some? then Dispatch else NoRequest)
            && (at.Some? ==>
                  && FormGiven(r.conn, Flatten(chunks), h, at.value, n)
                  && FormIn(BodyText(r.conn), h.next + at.value, READ_SIZE)
                     == FormTaken(Flatten(chunks), h, at.value, n))
            && (at == Some(0) ==>
                  FormTaken(Flatten(chunks), h, 0, n)
                  == if |name| <= FORM_MAX && |password| <= FORM_MAX then Form(name, password) else Overrun)
  {
    hide ReadHead, Feed, FormOf, PrintForm, SamePointers, SameFields, NameEnd, Flatten, Found;
    var body := PrintForm(name, "password", password);
    FormAnswered(chunks, h, |body|, canOpen);
    FormFits(name, password);
    AnnouncesFacts(Flatten(chunks), h, |body|);
    SliceTail(Flatten(chunks), h.next, 0, |body|);
    assert Flatten(chunks)[h.next..][0..|body|] == body;
  }

  /** A form begins with 'u', on which no scan stops.  If nothing follows it, it is found
      exactly if no read but the last brings any of it. */
  lemma FormOnTime(chunks: seq<string>, h: Head, name: string, password: string)
    requires chunks != [] && FormSent(chunks, h, name, password) && chunks[|chunks| - 1] != ""
    requires |Flatten(chunks)| == h.next + |PrintForm(name, "password", password)|
    ensures FormPlace(chunks, h, name, password) == if |Before(chunks)| <= h.next then Some(0) else None
  {
    hide ReadHead, Found, PrintForm;
    var body, raw, b := PrintForm(name, "password", password), Flatten(chunks), Before(chunks);
    AnnouncesFacts(raw, h, |body|);
    OneRequest(chunks, h, |body|);
    BeforeIsPrefix(chunks);
    FormBegins(name, password);
    assert raw[h.next] == raw[h.next..][0] == body[0];
    if |b| > h.next {
      assert b[h.next..][0] == b[h.next] == raw[h.next];
    }
  }

  lemma FormBegins(name: string, password: string)
    ensures var s := PrintForm(name, "password", password); s != "" && s[0] == 'u'
  {
  }

  lemma BeforeIsPrefix(chunks: seq<string>)
    requires chunks != []
    ensures Before(chunks) <= Flatten(chunks)
  {
    FlattenSplit(chunks, |chunks| - 1);
  }

  lemma FormFits(name: string, password: string)
    requires Plain(name) && Plain(password)
    ensures var s := PrintForm(name, "password", password);
            && |s| == 15 + |name| + |password| && NameEnd(s) == 5 + |name|
            && FormOf(s) == if |name| <= FORM_MAX && |password| <= FORM_MAX then Form(name, password) else Overrun
  {
    hide FormOf, NameEnd;
    PasswordTaken(name, "password", password);
    var rest := "password" + "=" + password;
    assert rest[9..] == password;
    var s := PrintForm(name, "password", password);
    assert s == ("user=" + name) + ("&" + rest);
    NameTaken(s, name, "&" + rest);
  }
}
