/** Requests as a client writes them, and that the parser's reference reads them so. */
module WrittenRequests {
  import opened Basics
  import opened CString
  import opened RequestHead
  import opened HeadMeaning
  import opened RequestGrammar
  import opened HeaderForms
  import opened Response
  import opened Replies
  import Multipart

  function LengthLine(n: nat): string {
    "Content-Length: " + Decimal(n)
  }

  function PostLine(path: string): string {
    "POST" + " " + path + [' '] + "HTTP/1.1"
  }

  /** Header lines, the blank line, and the body. */
  function Message(lines: seq<string>, body: string): string {
    if lines == [] then "" + (CRLF + body) else lines[0] + (CRLF + Message(lines[1..], body))
  }

  function PostRequest(path: string, lines: seq<string>, body: string): string {
    PostLine(path) + (CRLF + Message(lines, body))
  }

  predicate OneLine(s: string) {
    CR !in s && LF !in s && NUL !in s
  }

  lemma LineHere(raw: string, i: nat, line: string, rest: string)
    requires i <= |raw| && raw[i..] == line + (CRLF + rest) && OneLine(line)
    ensures LineAt(raw, i) && LineText(raw, i) == line && NextLine(raw, i) == i + |line| + 2
    ensures raw[i + |line| + 2..] == rest
  {
    var k := i + |line|;
    assert forall j | 0 <= j < |line| :: raw[i + j] == raw[i..][j] == line[j];
    assert raw[k] == raw[i..][|line|] == CR && raw[k + 1] == raw[i..][|line| + 1] == LF;
    FirstOfUnique(raw, i, EOL, k);
    assert raw[i..k] == line;
    CutPlain(line);
    assert raw[k + 2..] == raw[i..][|line| + 2..] == rest;
  }

  lemma LengthRead(n: nat)
    requires n < 0x8000_0000
    ensures OneLine(LengthLine(n)) && FieldOf(LengthLine(n)) == Length(n)
  {
    hide Atol, ToInt, Decimal, Find, TypeField;
    var s, d := LengthLine(n), Decimal(n);
    DecimalRead(n);
    assert forall c | c in d :: IsDigit(c);
    assert s[3] == 't' && Lower(s[3]) != Lower("Connection:"[3]);
    assert s[..15] == "Content-Length:";
    assert s[15] == ' ' && s[16] == d[0];
    SpanUnique(s, 15, BLANK, 16);
    assert s[16..] == d;
    IntRead(n);
    SmallInt(n);
  }

  lemma SmallInt(n: nat)
    requires n < 0x8000_0000
    ensures ToInt(n) == n
  {
  }

  predicate PlainPath(path: string) {
    |path| > 1 && path[0] == '/' && OneLine(path) && NoBlank(path)
  }

  lemma PostLineRead(path: string)
    requires PlainPath(path)
    ensures OneLine(PostLine(path))
    ensures SplitLine(PostLine(path)) == Target(POST, 4, 5 + |path|, 5) && PostLine(path)[5..5 + |path|] == path
  {
    hide SplitLine;
    var s := PostLine(path);
    assert !PrefixNoCase(path, "http://") by { assert Lower('/') != Lower('h'); }
    assert RequestLineForm(s, "POST", " ", path, ' ', "HTTP/1.1");
    assert Lower("POST"[0]) != Lower("GET"[0]);
    FormAccepted(s, "POST", " ", path, ' ', "HTTP/1.1");
    LinePieces("POST", " ", path, ' ', "HTTP/1.1");
  }

  /** A header line that is not empty and does not overrun the boundary. */
  predicate Proper(line: string) {
    line != "" && OneLine(line) && (FieldOf(line).Boundary? ==> |FieldOf(line).mark| < Multipart.BOUNDARY_MAX)
  }

  /** The request after header lines, the first of them at `i`. */
  function FoldFields(req: Request, i: nat, lines: seq<string>): Request
    decreases |lines|
  {
    if lines == [] then req
    else FoldFields(ReadField(req, i, lines[0], FieldOf(lines[0])).req, i + |lines[0]| + 2, lines[1..])
  }

  lemma EmptyLine()
    ensures OneLine("")
  {
  }

  /** A head written as lines is read line by line, up to what follows it. */
  lemma {:induction false} MessageRead(raw: string, i: nat, lines: seq<string>, body: string, req: Request)
    requires i <= |raw| && raw[i..] == Message(lines, body) && req.phase == Header
    requires forall k | 0 <= k < |lines| :: Proper(lines[k])
    ensures var h, f := ReadHead(raw, i, req), FoldFields(req, i, lines);
            && h.outcome == (if f.contentLength != 0 then HasBody else Complete)
            && h.req == (if f.contentLength != 0 then f.(phase := Content) else f) && f.phase == Header
            && i < h.next && h.next + |body| == |raw| && raw[h.next..] == body
    decreases |lines|
  {
    hide FieldOf, LineAt, LineText, NextLine, OneLine;
    if lines == [] {
      assert OneLine("") by { EmptyLine(); }
      LineHere(raw, i, "", body);
    } else {
      var line := lines[0];
      assert Proper(line);
      LineHere(raw, i, line, Message(lines[1..], body));
      var r := ReadField(req, i, line, FieldOf(line));
      assert r.outcome == Incomplete && r.req.phase == Header;
      assert forall k | 0 <= k < |lines[1..]| :: lines[1..][k] == lines[k + 1];
      MessageRead(raw, i + |line| + 2, lines[1..], body, r.req);
    }
  }

  /** A POST written so is read so: its head ends where it should, with method, path and
      fields, and its body is the rest. */
  lemma PostRead(path: string, lines: seq<string>, body: string)
    requires PlainPath(path) && forall k | 0 <= k < |lines| :: Proper(lines[k])
    requires FoldFields(NONE_YET, 0, lines).contentLength != 0
    ensures var raw := PostRequest(path, lines, body);
            var h, f := ReadHead(raw, 0, NONE_YET), FoldFields(NONE_YET, 0, lines);
            && h.outcome == HasBody && h.req.meth == POST && h.req.url.text == path
            && SameStated(h.req, f)
            && |raw| == h.next + |body| && raw[h.next..] == body
  {
    hide LineAt, LineText, NextLine, SplitLine, PostLine, FieldOf, Message, OneLine;
    var raw := PostRequest(path, lines, body);
    assert raw[0..] == raw;
    PostLineRead(path);
    LineHere(raw, 0, PostLine(path), Message(lines, body));
    var i := |PostLine(path)| + 2;
    var req := ReadLine(NONE_YET, 0, PostLine(path)).req;
    SameFold(NONE_YET, 0, req, i, lines);
    MessageRead(raw, i, lines, body, req);
    assert ReadHead(raw, 0, NONE_YET) == ReadHead(raw, i, req);
  }

  /** What the head states apart from the request line. */
  predicate SameStated(a: Request, b: Request) {
    && a.multipart == b.multipart && a.boundary == b.boundary && a.cookie == b.cookie
    && a.linger == b.linger && a.contentLength == b.contentLength
  }

  lemma SameField(a: Request, i: nat, b: Request, j: nat, s: string, f: Field)
    requires SameStated(a, b) && (f.HostAt? ==> f.k <= |s|)
    ensures SameStated(ReadField(a, i, s, f).req, ReadField(b, j, s, f).req)
    ensures ReadField(b, j, s, f).req.url == b.url && ReadField(b, j, s, f).req.meth == b.meth
  {
  }

  /** The fields that lines state do not depend on the request line. */
  lemma {:induction false} SameFold(a: Request, i: nat, b: Request, j: nat, lines: seq<string>)
    requires SameStated(a, b)
    ensures var f, g := FoldFields(a, i, lines), FoldFields(b, j, lines);
            SameStated(f, g) && g.url == b.url && g.meth == b.meth
    decreases |lines|
  {
    hide FieldOf, ReadField, SameStated;
    if lines != [] {
      var f := FieldOf(lines[0]);
      SameField(a, i, b, j, lines[0], f);
      SameFold(ReadField(a, i, lines[0], f).req, i + |lines[0]| + 2,
               ReadField(b, j, lines[0], f).req, j + |lines[0]| + 2, lines[1..]);
    }
  }

  // A GET.

  predicate GetPath(path: string) {
    path != "" && path[0] == '/' && OneLine(path) && NoBlank(path)
  }

  function GetLine(path: string): string {
    "GET" + " " + path + [' '] + "HTTP/1.1"
  }

  function WrittenGet(path: string, lines: seq<string>): string {
    GetLine(path) + (CRLF + Message(lines, ""))
  }

  lemma GetLineRead(path: string)
    requires GetPath(path)
    ensures OneLine(GetLine(path))
    ensures SplitLine(GetLine(path)) == Target(GET, 3, 4 + |path|, 4) && GetLine(path)[4..4 + |path|] == path
  {
    hide SplitLine;
    var s := GetLine(path);
    assert !PrefixNoCase(path, "http://") by { assert Lower('/') != Lower('h'); }
    assert RequestLineForm(s, "GET", " ", path, ' ', "HTTP/1.1");
    FormAccepted(s, "GET", " ", path, ' ', "HTTP/1.1");
    LinePieces("GET", " ", path, ' ', "HTTP/1.1");
  }

  /** A GET written so is read so, with no body. */
  lemma GetRead(path: string, lines: seq<string>)
    requires GetPath(path) && forall k | 0 <= k < |lines| :: Proper(lines[k])
    requires FoldFields(NONE_YET, 0, lines).contentLength == 0
    ensures var raw := WrittenGet(path, lines);
            var h, f := ReadHead(raw, 0, NONE_YET), FoldFields(NONE_YET, 0, lines);
            && h.outcome == Complete && h.req.meth == GET
            && h.req.url.text == (if path == "/" then "/index.html" else path)
            && SameStated(h.req, f) && h.next == |raw|
  {
    hide LineAt, LineText, NextLine, SplitLine, GetLine, FieldOf, Message, OneLine;
    var raw := WrittenGet(path, lines);
    assert raw[0..] == raw;
    GetLineRead(path);
    LineHere(raw, 0, GetLine(path), Message(lines, ""));
    var i := |GetLine(path)| + 2;
    var req := ReadLine(NONE_YET, 0, GetLine(path)).req;
    SameFold(NONE_YET, 0, req, i, lines);
    MessageRead(raw, i, lines, "", req);
    assert ReadHead(raw, 0, NONE_YET) == ReadHead(raw, i, req);
  }

  /** The connection is to be kept exactly if some line says so, and the login cookie is there
      exactly if some line brings it. */
  lemma {:induction false} FoldSays(req: Request, i: nat, lines: seq<string>)
    ensures var f := FoldFields(req, i, lines);
            && (f.linger <==> req.linger || exists k :: 0 <= k < |lines| && KeepAliveLine(lines[k]))
            && (f.cookie <==> req.cookie || exists k :: 0 <= k < |lines| && LoginLine(lines[k]))
            && (NoneNamed(lines, "Content-Length:") ==> f.contentLength == req.contentLength)
    decreases |lines|
  {
    hide FieldOf, KeepAliveLine, LoginLine, PrefixNoCase;
    if lines != [] {
      var s, rest := lines[0], lines[1..];
      KeepAliveExactly(s);
      LoginExactly(s);
      LengthExactly(s, 0);
      FoldSays(ReadField(req, i, s, FieldOf(s)).req, i + |s| + 2, rest);
      assert forall k | 0 <= k < |rest| :: rest[k] == lines[k + 1];
      if k :| 0 <= k < |lines| && KeepAliveLine(lines[k]) {
        assert k > 0 ==> rest[k - 1] == lines[k];
      }
      if k :| 0 <= k < |lines| && LoginLine(lines[k]) {
        assert k > 0 ==> rest[k - 1] == lines[k];
      }
    }
  }

  // A form.

  function FormRequest(path: string, body: string): string {
    PostRequest(path, [LengthLine(|body|)], body)
  }

  lemma FormLines(n: nat)
    requires 0 < n < 0x8000_0000
    ensures var lines := [LengthLine(n)];
            && Proper(lines[0])
            && var f := FoldFields(NONE_YET, 0, lines);
               f.contentLength == n && !f.multipart && !f.linger
  {
    hide FieldOf;
    LengthRead(n);
    assert [LengthLine(n)][1..] == [];
  }

  // An upload.

  function TypeLine(boundary: string): string {
    "Content-Type:" + (" " + ("multipart/form-data; " + ("boundary=" + boundary)))
  }

  const COOKIE_LINE: string := "Cookie:" + (" " + "is_login=true")

  function UploadLines(boundary: string, cookie: bool, n: nat): seq<string> {
    [TypeLine(boundary), LengthLine(n)] + if cookie then [COOKIE_LINE] else []
  }

  /** An upload, with or without the login cookie. */
  function UploadRequest(path: string, boundary: string, cookie: bool, body: string): string {
    PostRequest(path, UploadLines(boundary, cookie, |body|), body)
  }

  /** Deciding `strncasecmp` by one byte, or by equality. */
  lemma OtherPrefix(s: string, p: string, k: nat)
    requires k < |s| && k < |p| && Lower(s[k]) != Lower(p[k])
    ensures !PrefixNoCase(s, p)
  {
    if |p| <= |s| {
      assert s[..|p|][k] == s[k];
    }
  }

  lemma SamePrefix(s: string, p: string, rest: string)
    requires s == p + rest
    ensures PrefixNoCase(s, p)
  {
    assert s[..|p|] == p;
  }

  lemma OneLineJoin(a: string, b: string)
    requires OneLine(a) && OneLine(b)
    ensures OneLine(a + b)
  {
  }

  lemma TypeRead(boundary: string)
    requires OneLine(boundary) && |boundary| < Multipart.BOUNDARY_MAX
    ensures Proper(TypeLine(boundary)) && FieldOf(TypeLine(boundary)) == Boundary(boundary)
  {
    hide Find, Atol, ToInt, PrefixNoCase, EqNoCase, OneLine, TypeField;
    var s := TypeLine(boundary);
    var v := "multipart/form-data; " + ("boundary=" + boundary);
    TypeText(s, v, boundary);
    OtherPrefix(s, "Connection:", 3);
    OtherPrefix(s, "Content-Length:", 8);
    OtherPrefix(s, "Host:", 0);
    OtherPrefix(s, "Cookie:", 2);
    SpanUnique(s, 13, BLANK, 14);
    BoundaryFound(boundary);
  }

  lemma TypeText(s: string, v: string, boundary: string)
    requires s == TypeLine(boundary) && v == "multipart/form-data; " + ("boundary=" + boundary) && OneLine(boundary)
    ensures |s| > 14 && s[14..] == v && s[13] == ' ' && s[14] == 'm' && OneLine(s)
    ensures s[0] == 'C' && s[2] == 'n' && s[3] == 't' && s[8] == 'T' && PrefixNoCase(s, "Content-Type:")
  {
    hide OneLine, PrefixNoCase;
    SamePrefix(s, "Content-Type:", " " + v);
    TypeOneLine(boundary);
    assert |"Content-Type:"| == 13;
    assert s == ("Content-Type:" + " ") + v;
  }

  lemma TypeWords()
    ensures OneLine("Content-Type:") && OneLine(" ") && OneLine("boundary=")
  {
  }

  lemma MultipartWords()
    ensures OneLine("multipart/form-data; ")
  {
  }

  lemma CookieWords()
    ensures OneLine("Cookie:") && OneLine(" ") && OneLine("is_login=true")
  {
  }

  lemma TypeOneLine(boundary: string)
    requires OneLine(boundary)
    ensures OneLine(TypeLine(boundary))
  {
    hide OneLine;
    TypeWords();
    MultipartWords();
    OneLineJoin("boundary=", boundary);
    OneLineJoin("multipart/form-data; ", "boundary=" + boundary);
    OneLineJoin(" ", "multipart/form-data; " + ("boundary=" + boundary));
    OneLineJoin("Content-Type:", " " + ("multipart/form-data; " + ("boundary=" + boundary)));
  }

  lemma CookieOneLine()
    ensures OneLine(COOKIE_LINE)
  {
    hide OneLine;
    CookieWords();
    OneLineJoin(" ", "is_login=true");
    OneLineJoin("Cookie:", " " + "is_login=true");
  }

  lemma BoundaryFound(boundary: string)
    ensures TypeField("multipart/form-data; " + ("boundary=" + boundary)) == Boundary(boundary)
  {
    hide EqNoCase;
    var front, v := "multipart/form-data; ", "multipart/form-data; " + ("boundary=" + boundary);
    assert |front| == 21;
    assert v[..19] == "multipart/form-data";
    SameText("multipart/form-data");
    OccursSelf(v);
    OccursConcat(v, 0, front, "boundary=" + boundary);
    OccursConcat(v, 21, "boundary=", boundary);
    assert 'b' !in front;
    forall k | 0 <= k < 21 ensures !OccursAt(v, "boundary=", k) {
      assert v[k] == front[k];
      Mismatch(v, "boundary=", k, 0);
    }
    FindFromUnique(v, "boundary=", 0, 21);
    assert v[30..] == boundary;
  }

  lemma SameText(s: string)
    ensures EqNoCase(s, s)
  {
  }

  lemma CookieRead()
    ensures Proper(COOKIE_LINE) && FieldOf(COOKIE_LINE) == LoginCookie
  {
    hide Find, PrefixNoCase, EqNoCase, TypeField, Atol, ToInt, OneLine;
    var s, v := COOKIE_LINE, "is_login=true";
    CookieOneLine();
    SamePrefix(s, "Cookie:", " " + v);
    assert s[0] == 'C' && s[2] == 'o' && s[7] == ' ' && s[8] == 'i' && |s| > 8;
    OtherPrefix(s, "Connection:", 2);
    OtherPrefix(s, "Content-Length:", 2);
    OtherPrefix(s, "Host:", 0);
    SpanUnique(s, 7, BLANK, 8);
    assert s[8..] == v;
    SelfFound(v);
  }

  lemma SelfFound(v: string)
    ensures Find(v, v) == Some(0)
  {
    OccursSelf(v);
    FindFromUnique(v, v, 0, 0);
  }

  lemma UploadFields(boundary: string, cookie: bool, n: nat)
    requires OneLine(boundary) && |boundary| < Multipart.BOUNDARY_MAX && 0 < n < 0x8000_0000
    ensures var lines := UploadLines(boundary, cookie, n);
            && (forall k | 0 <= k < |lines| :: Proper(lines[k]))
            && var f := FoldFields(NONE_YET, 0, lines);
               f.contentLength == n && f.multipart && f.boundary == boundary && f.cookie == cookie
  {
    hide FieldOf, TypeLine, LengthLine, FoldFields;
    TypeRead(boundary);
    LengthRead(n);
    CookieRead();
    var lines := UploadLines(boundary, cookie, n);
    var first := NONE_YET.(multipart := true, boundary := boundary);
    var second := first.(contentLength := n);
    FoldOne(NONE_YET, 0, lines);
    var i := |lines[0]| + 2;
    FoldOne(first, i, lines[1..]);
    var j := i + |lines[1]| + 2;
    assert lines[1..][1..] == if cookie then [COOKIE_LINE] else [];
    FoldOne(second, j, lines[1..][1..]);
    if cookie {
      assert [COOKIE_LINE][1..] == [];
      FoldOne(second.(cookie := true), j + |COOKIE_LINE| + 2, []);
    }
  }

  lemma FoldOne(req: Request, i: nat, lines: seq<string>)
    ensures FoldFields(req, i, lines)
            == if lines == [] then req
               else FoldFields(ReadField(req, i, lines[0], FieldOf(lines[0])).req, i + |lines[0]| + 2, lines[1..])
  {
  }
}
