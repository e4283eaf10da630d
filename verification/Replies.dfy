/** What a client makes of the responses: the lines up to the blank one, the declared
    length, the cookie, and the body behind. */
module Replies {
  import opened Basics
  import opened CString
  import opened DoRequest
  import opened Response
  import opened Sending

  datatype Reply = Reply(lines: seq<string>, body: string) | Broken

  /** A client's reading: lines end at CR LF, the first empty line ends the head. */
  function ReadReply(s: string): (r: Reply)
    decreases |s|
  {
    var k := Find(s, CRLF);
    if k.None? then Broken
    else if k.value == 0 then Reply([], s[2..])
    else
      var rest := ReadReply(s[k.value + 2..]);
      if rest.Broken? then Broken else Reply([s[..k.value]] + rest.lines, rest.body)
  }

  predicate IsLine(s: string) {
    s != "" && CR !in s
  }

  function Joined(lines: seq<string>): string
    decreases |lines|
  {
    if lines == [] then ""
    else
      var n := |lines| - 1;
      Joined(lines[..n]) + (lines[n] + CRLF)
  }

  lemma JoinedLast(lines: seq<string>, mid: seq<string>, last: string)
    requires lines == mid + [last]
    ensures Joined(lines) == Joined(mid) + (last + CRLF)
  {
    assert lines[..|lines| - 1] == mid;
  }

  lemma JoinedOne(line: string)
    ensures Joined([line]) == line + CRLF
  {
    JoinedLast([line], [], line);
    assert Joined([]) == "";
  }

  lemma {:induction false} JoinedFront(lines: seq<string>)
    requires lines != []
    ensures Joined(lines) == (lines[0] + CRLF) + Joined(lines[1..])
    decreases |lines|
  {
    hide Joined;
    var n := |lines| - 1;
    if n == 0 {
      JoinedOne(lines[0]);
      assert lines == [lines[0]] && lines[1..] == [];
      JoinedNone();
    } else {
      var mid := lines[1..n];
      assert lines[..n] == [lines[0]] + mid;
      JoinedFront(lines[..n]);
      assert lines == lines[..n] + [lines[n]];
      JoinedLast(lines, lines[..n], lines[n]);
      assert lines[1..] == mid + [lines[n]];
      JoinedLast(lines[1..], mid, lines[n]);
      Assoc(lines[0] + CRLF, Joined(mid), lines[n] + CRLF);
    }
  }

  lemma JoinedNone()
    ensures Joined([]) == ""
  {
  }

  lemma FirstLine(line: string, rest: string)
    requires CR !in line
    ensures Find(line + (CRLF + rest), CRLF) == Some(|line|)
  {
    var s := line + (CRLF + rest);
    OccursEach(s, CRLF, |line|);
    forall j | 0 <= j < |line| ensures !OccursAt(s, CRLF, j) {
      Mismatch(s, CRLF, j, 0);
    }
    FindFromUnique(s, CRLF, 0, |line|);
  }

  /** Whatever lines and body are sent, just these are read. */
  lemma {:induction false} LinesRead(lines: seq<string>, body: string)
    requires forall l | l in lines :: IsLine(l)
    ensures ReadReply(Joined(lines) + (CRLF + body)) == Reply(lines, body)
  {
    hide Joined, IsLine, ReadReply;
    if lines == [] {
      JoinedNone();
      assert Joined([]) + (CRLF + body) == CRLF + body;
      ReadEmpty(body);
    } else {
      var rest := Joined(lines[1..]) + (CRLF + body);
      JoinedFront(lines);
      Assoc(lines[0] + CRLF, Joined(lines[1..]), CRLF + body);
      Assoc(lines[0], CRLF, rest);
      assert IsLine(lines[0]);
      LinesRead(lines[1..], body);
      ReadLineFirst(lines[0], rest);
      assert [lines[0]] + lines[1..] == lines;
    }
  }

  lemma ReadEmpty(body: string)
    ensures ReadReply(CRLF + body) == Reply([], body)
  {
    FirstLine("", body);
    assert "" + (CRLF + body) == CRLF + body && (CRLF + body)[2..] == body;
  }

  lemma ReadLineFirst(line: string, rest: string)
    requires IsLine(line) && ReadReply(rest).Reply?
    ensures ReadReply(line + (CRLF + rest)) == Reply([line] + ReadReply(rest).lines, ReadReply(rest).body)
  {
    var s := line + (CRLF + rest);
    FirstLine(line, rest);
    assert s[|line| + 2..] == rest && s[..|line|] == line;
  }

  // Everything fits.

  lemma {:induction false} LinesFit(written: string, lines: seq<string>)
    requires |written| + |Joined(lines)| + 1 < WRITE_SIZE
    ensures PutLines(written, lines) == written + Joined(lines)
    decreases |lines|
  {
    if lines != [] {
      LinesFit(written, lines[..|lines| - 1]);
    }
  }

  // Decimal numbers.

  predicate AllDigits(s: string) {
    forall i | 0 <= i < |s| :: IsDigit(s[i])
  }

  lemma {:induction false} DigitsMore(s: string, c: char, acc: nat)
    requires AllDigits(s) && IsDigit(c)
    ensures DigitsFrom(s + [c], acc) == 10 * DigitsFrom(s, acc) + (c as int - '0' as int)
  {
    if s != [] {
      assert (s + [c])[1..] == s[1..] + [c];
      DigitsMore(s[1..], c, 10 * acc + (s[0] as int - '0' as int));
    } else {
      assert (s + [c])[1..] == [];
    }
  }

  lemma {:induction false} DecimalRead(n: nat)
    ensures AllDigits(Decimal(n)) && DigitsFrom(Decimal(n), 0) == n
  {
    if n < 10 {
      assert Decimal(n)[1..] == [];
    } else {
      DecimalRead(n / 10);
      DigitsMore(Decimal(n / 10), Digit(n % 10), 0);
    }
  }

  /** `atol` reads back what `%d` printed. */
  lemma IntRead(i: int)
    requires -0x8000_0000 <= i < 0x8000_0000
    ensures Atol(Int(i)) == i
  {
    hide Decimal;
    var d := Decimal(if i < 0 then -i else i);
    DecimalRead(if i < 0 then -i else i);
    assert Span(Int(i), 0, SPACE) == 0;
    assert Int(i)[0..] == Int(i);
    if i < 0 {
      assert Int(i)[1..] == d;
    }
  }

  function Pow10(k: nat): nat {
    if k == 0 then 1 else 10 * Pow10(k - 1)
  }

  lemma {:induction false} DecimalShort(n: nat, k: nat)
    requires k > 0 && n < Pow10(k)
    ensures |Decimal(n)| <= k
  {
    if n >= 10 {
      assert k > 1;
      DecimalShort(n / 10, k - 1);
    }
  }

  lemma IntShort(i: int)
    requires -0x8000_0000 <= i < 0x8000_0000
    ensures |Int(i)| <= 11 && IsLine(Int(i))
  {
    var n := if i < 0 then -i else i;
    assert Pow10(5) == 100000;
    assert Pow10(10) == 10000000000;
    DecimalShort(n, 10);
    DecimalRead(n);
    assert forall c | c in Decimal(n) :: IsDigit(c);
  }

  // The head of a response.

  lemma MediaShort(url: string)
    ensures |MediaType(url)| <= 15 && CR !in MediaType(url)
  {
    hide LastDot, EqNoCase;
  }

  lemma JsonShort()
    ensures |JSON| <= 30 && CR !in JSON
  {
  }

  /** Every line of a head: none empty, none with a CR, all of them short. */
  lemma HeadLines(length: int, media: string, linger: bool, cookie: bool) returns (lines: seq<string>)
    requires -0x8000_0000 <= length < 0x8000_0000 && |media| <= 30 && CR !in media
    ensures lines == [StatusLine(200, "OK")] + HeaderLines(length, media, linger, cookie)
    ensures |lines| <= 5 && forall l | l in lines :: IsLine(l) && |l| <= 50
  {
    lines := [StatusLine(200, "OK")] + HeaderLines(length, media, linger, cookie);
    IntShort(length);
    IntShort(200);
    LineParts("HTTP/1.1 ", Int(200));
    LineParts("HTTP/1.1 " + Int(200), " ");
    LineParts("HTTP/1.1 " + Int(200) + " ", "OK");
    LineParts("Content-Length: ", Int(length));
    LineParts("Content-Type:", media);
    LineParts("Connection: ", if linger then "keep-alive" else "close");
    CookieLine();
  }

  lemma LineParts(a: string, b: string)
    requires a != "" && CR !in a && CR !in b
    ensures IsLine(a + b) && |a + b| == |a| + |b|
  {
  }

  lemma CookieLine()
    ensures IsLine(COOKIE) && |COOKIE| <= 50
  {
    LineParts("Set-Cookie: is_login=true", "; Max-Age=3600; Path=/");
  }

  lemma {:induction false} JoinedShort(lines: seq<string>)
    requires forall l | l in lines :: |l| <= 50
    ensures |Joined(lines)| <= 52 * |lines|
    decreases |lines|
  {
    if lines != [] {
      JoinedShort(lines[..|lines| - 1]);
    }
  }

  /** The head of every 200 response, if nothing precedes it in the buffer: nothing is
      cut off, and a client that also gets `body` reads these lines and that body. */
  lemma HeadRead(length: int, media: string, linger: bool, cookie: bool, body: string)
    requires -0x8000_0000 <= length < 0x8000_0000 && |media| <= 30 && CR !in media
    ensures var head := Headed("", length, media, linger, cookie);
            && |head| <= 262
            && ReadReply(head + body)
               == Reply([StatusLine(200, "OK")] + HeaderLines(length, media, linger, cookie), body)
  {
    hide HeaderLines, StatusLine, ReadReply, IsLine;
    var lines := HeadLines(length, media, linger, cookie);
    JoinedShort(lines);
    HeadJoined(length, media, linger, cookie, lines);
    LinesRead(lines, body);
    assert Joined(lines) + CRLF + body == Joined(lines) + (CRLF + body);
  }

  lemma HeadJoined(length: int, media: string, linger: bool, cookie: bool, lines: seq<string>)
    requires lines == [StatusLine(200, "OK")] + HeaderLines(length, media, linger, cookie)
    requires |Joined(lines)| <= 260
    ensures Headed("", length, media, linger, cookie) == Joined(lines) + CRLF
  {
    hide HeaderLines, StatusLine;
    var status, more := StatusLine(200, "OK"), lines[1..];
    assert more == HeaderLines(length, media, linger, cookie);
    JoinedFront(lines);
    var first := Put("", status + CRLF);
    assert first == status + CRLF;
    LinesFit(first, more);
  }

  /** The body length a client is told: the number in the first Content-Length line. */
  function DeclaredLength(lines: seq<string>): Option<int> {
    if lines == [] then None
    else if "Content-Length: " <= lines[0] then Some(Atol(lines[0][16..]))
    else DeclaredLength(lines[1..])
  }

  lemma HeadSays(length: int, media: string, linger: bool, cookie: bool)
    requires -0x8000_0000 <= length < 0x8000_0000
    ensures var lines := [StatusLine(200, "OK")] + HeaderLines(length, media, linger, cookie);
            DeclaredLength(lines) == Some(length) && (COOKIE in lines <==> cookie)
  {
    hide Atol, Int;
    IntRead(length);
    var lines := [StatusLine(200, "OK")] + HeaderLines(length, media, linger, cookie);
    assert StatusLine(200, "OK")[0] == 'H';
    assert lines[1..][0] == "Content-Length: " + Int(length);
    assert ("Content-Length: " + Int(length))[16..] == Int(length);
    assert lines[1][0] == 'C' && lines[2][0] == 'C' && lines[3][0] == 'C';
    assert "Set-Cookie: is_login=true"[0] == 'S';
    assert cookie ==> lines[4] == COOKIE;
  }

  lemma BodyRead(length: int, media: string, linger: bool, cookie: bool, body: string)
    requires -0x8000_0000 <= length < 0x8000_0000 && |media| <= 30 && CR !in media
    ensures var r := ReadReply(Headed("", length, media, linger, cookie) + body);
            r.Reply? && r.body == body && DeclaredLength(r.lines) == Some(length) && (COOKIE in r.lines <==> cookie)
  {
    hide ReadReply, Headed, DeclaredLength, HeaderLines, StatusLine;
    HeadRead(length, media, linger, cookie, body);
    HeadSays(length, media, linger, cookie);
  }

  /** What a client must find in a response: the lines end in one blank line, the body
      behind it is `body`, its length is declared, and the cookie is there if due. */
  predicate Reads(bytes: string, body: string, cookie: bool) {
    var r := ReadReply(bytes);
    r.Reply? && r.body == body && DeclaredLength(r.lines) == Some(|body|) && (COOKIE in r.lines <==> cookie)
  }

  /** The total that `write` counts down is no more than what there is to send, and not 0. */
  predicate OnceOnly(written: nat, fileSize: nat) {
    0 != Total(written, fileSize) <= written
  }

  /** For sizes below two gigabytes: no file was looked up before, or an empty one. */
  lemma OnceIs(written: nat, fileSize: nat)
    requires 0 < written && written + fileSize < 0x8000_0000
    ensures OnceOnly(written, fileSize) <==> fileSize == 0
  {
  }

  /** The calls of `write` come to an end, and each of their writes took all there was. */
  predicate SentWhole(iov: seq<string>, total: int, calls: seq<seq<nat>>) {
    AllTakesAll(calls, |Flat(iov)|) && Session(Flat(iov), total, calls).done
  }

  /** The head of an API answer, and what a client makes of any bytes behind it. */
  lemma JsonHead(page: Page, text: string, more: string)
    requires page.isJson && |text| <= 700
    ensures var head := Headed("", |text|, JSON, page.linger, page.setCookie);
            && Fits(|head|, text)
            && Reads(head + text, text, page.setCookie)
            && (more != "" ==> !Reads(head + (text + more), text, page.setCookie))
  {
    hide ReadReply, Headed, DeclaredLength, HeaderLines, StatusLine;
    JsonShort();
    HeadRead(|text|, JSON, page.linger, page.setCookie, text);
    BodyRead(|text|, JSON, page.linger, page.setCookie, text);
    HeadRead(|text|, JSON, page.linger, page.setCookie, text + more);
  }

  /** An API answer, from an empty write buffer: it is built, and however often `write` is
      called, if no writev is short the client reads it exactly if it is sent only once,
      which needs a file size of 0 left on the object. */
  lemma JsonReply(page: Page, iov: seq<string>, calls: seq<seq<nat>>)
    requires page.isJson && page.jsonString.Some? && |page.jsonString.value| <= 700
    ensures var p := Produce(page, GetRequest, "", iov);
            && p.ok && !p.setCookie
            && var total := Total(|p.written|, page.fileSize);
               SentWhole(p.iov, total, calls) ==>
                 (Reads(Session(Flat(p.iov), total, calls).wire, page.jsonString.value, page.setCookie)
                  <==> OnceOnly(|p.written|, page.fileSize))
  {
    hide Reads, Headed, Total, Session;
    var text := page.jsonString.value;
    JsonHead(page, text, "");
    var answer := Headed("", |text|, JSON, page.linger, page.setCookie) + text;
    FlatOne(answer);
    var total := Total(|answer|, page.fileSize);
    if SentWhole([answer], total, calls) {
      JsonCopies(page, text, total, calls);
    }
  }

  lemma JsonCopies(page: Page, text: string, total: int, calls: seq<seq<nat>>)
    requires page.isJson && |text| <= 700
    requires var answer := Headed("", |text|, JSON, page.linger, page.setCookie) + text;
             AllTakesAll(calls, |answer|) && Session(answer, total, calls).done
    ensures var answer := Headed("", |text|, JSON, page.linger, page.setCookie) + text;
            Reads(Session(answer, total, calls).wire, text, page.setCookie) <==> 0 != total <= |answer|
  {
    hide Headed, ReadReply, DeclaredLength;
    var head := Headed("", |text|, JSON, page.linger, page.setCookie);
    var answer := head + text;
    JsonHead(page, text, "");
    if total == 0 {
      NothingSent(answer, calls);
      NothingRead();
    } else {
      NotEmpty(answer, text, page.setCookie);
      var k := WholeSession(answer, total, calls);
      if k == 1 {
        assert Times(answer, 1) == answer + Times(answer, 0) == answer;
      } else {
        var more := Times(answer, k - 1);
        assert more == answer + Times(answer, k - 2);
        assert answer + more == head + (text + more);
        JsonHead(page, text, more);
      }
    }
  }

  lemma {:induction false} NothingSent(text: string, calls: seq<seq<nat>>)
    ensures Session(text, 0, calls).wire == ""
  {
  }

  lemma NothingRead()
    ensures ReadReply("") == Broken
  {
    FindNone("", CRLF);
  }

  lemma NotEmpty(bytes: string, body: string, cookie: bool)
    requires Reads(bytes, body, cookie)
    ensures bytes != ""
  {
    NothingRead();
  }

  /** The lines of a 200 response, word for word. */
  lemma ReplyLines(length: nat, media: string, linger: bool, cookie: bool, body: string)
    requires length < 0x8000_0000 && |media| <= 30 && CR !in media
    ensures ReadReply(Headed("", length, media, linger, cookie) + body)
            == Reply(["HTTP/1.1 200 OK", "Content-Length: " + Decimal(length), "Content-Type:" + media,
                      if linger then "Connection: keep-alive" else "Connection: close"]
                     + (if cookie then ["Set-Cookie: is_login=true; Max-Age=3600; Path=/"] else []), body)
  {
    hide Headed, ReadReply, Decimal, HeaderLines, StatusLine;
    HeadRead(length, media, linger, cookie, body);
    StatusWords();
    HeaderWords(length, media, linger, cookie);
  }

  lemma StatusWords()
    ensures StatusLine(200, "OK") == "HTTP/1.1 200 OK"
  {
    assert Decimal(2) == "2" && Decimal(20) == "20" && Decimal(200) == "200";
  }

  lemma HeaderWords(length: nat, media: string, linger: bool, cookie: bool)
    ensures HeaderLines(length, media, linger, cookie)
            == ["Content-Length: " + Decimal(length), "Content-Type:" + media,
                if linger then "Connection: keep-alive" else "Connection: close"]
               + (if cookie then ["Set-Cookie: is_login=true; Max-Age=3600; Path=/"] else [])
  {
    hide Decimal;
    assert "Connection: " + "keep-alive" == "Connection: keep-alive";
    assert "Connection: " + "close" == "Connection: close";
    CookieWords();
  }

  lemma CookieWords()
    ensures COOKIE == "Set-Cookie: is_login=true; Max-Age=3600; Path=/"
  {
  }

  // A status line and nothing else.

  /** The responses without a page, word for word. */
  lemma StatusOnly(page: Page, iov: seq<string>)
    ensures Produce(page, InternalError, "", iov) == Alone("HTTP/1.1 500 Internal Server Error\r\n", page)
    ensures Produce(page, NoResource, "", iov) == Alone("HTTP/1.1 404 Not Found\r\n", page)
    ensures Produce(page, Forbidden, "", iov) == Alone("HTTP/1.1 403 Forbidden\r\n", page)
    ensures !Produce(page, WriteCode.BadRequest, "", iov).ok
  {
    ErrorWords();
    MissingWords();
    ForbiddenWords();
    hide StatusLine;
    PutAlone("HTTP/1.1 500 Internal Server Error\r\n");
    PutAlone("HTTP/1.1 404 Not Found\r\n");
    PutAlone("HTTP/1.1 403 Forbidden\r\n");
    hide Put;
  }

  lemma PutAlone(text: string)
    requires |text| <= 1022
    ensures Put("", text) == text
  {
    assert "" + text == text;
  }

  /** `text` is all there is in the buffer, and to be sent. */
  function Alone(text: string, page: Page): Produced {
    Produced(true, text, [text], page.setCookie)
  }

  lemma ErrorWords()
    ensures StatusLine(500, "Internal Server Error") + CRLF == "HTTP/1.1 500 Internal Server Error\r\n"
  {
    assert Decimal(5) == "5" && Decimal(50) == "50" && Decimal(500) == "500";
    hide Decimal;
    assert StatusLine(500, "Internal Server Error") == "HTTP/1.1 500 Internal Server Error";
  }

  lemma MissingWords()
    ensures StatusLine(404, "Not Found") + CRLF == "HTTP/1.1 404 Not Found\r\n"
  {
    assert Decimal(4) == "4" && Decimal(40) == "40" && Decimal(404) == "404";
    hide Decimal;
    assert StatusLine(404, "Not Found") == "HTTP/1.1 404 Not Found";
  }

  lemma ForbiddenWords()
    ensures StatusLine(403, "Forbidden") + CRLF == "HTTP/1.1 403 Forbidden\r\n"
  {
    assert Decimal(4) == "4" && Decimal(40) == "40" && Decimal(403) == "403";
    hide Decimal;
    assert StatusLine(403, "Forbidden") == "HTTP/1.1 403 Forbidden";
  }

  /** If no writev is short, the client gets a text exactly once exactly if no file size is
      left on the object: for a file it may not read, that is the size of this file. */
  lemma TextSent(text: string, size: nat, calls: seq<seq<nat>>)
    requires text != "" && |text| <= 1024 && size < 0x7fff_0000
    requires AllTakesAll(calls, |text|) && Session(text, Total(|text|, size), calls).done
    ensures Session(text, Total(|text|, size), calls).wire == text <==> size == 0
  {
    var total := Total(|text|, size);
    assert total == |text| + size;
    var k := WholeSession(text, total, calls);
    assert Times(text, 1) == text + Times(text, 0) == text;
    if k > 1 {
      assert Times(text, k) == text + (text + Times(text, k - 2));
    }
  }

  // A file.

  /** What the client reads of a file response and anything behind it. */
  lemma FileHead(page: Page, length: int, body: string)
    requires -0x8000_0000 <= length < 0x8000_0000
    ensures var head := Headed("", length, Media(page), page.linger, page.setCookie);
            var r := ReadReply(head + body);
            && r.Reply? && r.body == body && DeclaredLength(r.lines) == Some(length)
            && (COOKIE in r.lines <==> page.setCookie)
            && head != "" && head[0] == 'H'
  {
    hide ReadReply, Headed, DeclaredLength, MediaType;
    MediaShort(page.url);
    JsonShort();
    BodyRead(length, Media(page), page.linger, page.setCookie, body);
    HeadStarts(length, Media(page), page.linger, page.setCookie);
  }

  lemma HeadStarts(length: int, media: string, linger: bool, cookie: bool)
    requires -0x8000_0000 <= length < 0x8000_0000 && |media| <= 30 && CR !in media
    ensures var head := Headed("", length, media, linger, cookie); head != "" && head[0] == 'H'
  {
    hide HeaderLines, StatusLine;
    var lines := HeadLines(length, media, linger, cookie);
    JoinedShort(lines);
    HeadJoined(length, media, linger, cookie, lines);
    JoinedFront(lines);
    StatusStarts();
  }

  lemma StatusStarts()
    ensures StatusLine(200, "OK") != "" && StatusLine(200, "OK")[0] == 'H'
  {
  }

  /** The file response as it is to be sent. */
  function FileAnswer(page: Page): string {
    Headed("", SizeAsInt(page.fileSize), Media(page), page.linger, page.setCookie) + FileText(page)
  }

  /** The client of a file request reads it, whole and with its right length, if the first
      writev that sends anything takes all of it, exactly if the file is not empty and
      smaller than two gigabytes: an empty file is not sent at all. */
  lemma FileReply(page: Page, iov: seq<string>, calls: seq<seq<nat>>)
    requires page.mapped.Some? && |page.mapped.value| == page.fileSize && Positive(calls)
    ensures var p := Produce(page, FileRequest, "", iov);
            && p.ok == (page.fileSize != 0)
            && (p.ok ==>
                  var total := Total(|p.written|, page.fileSize);
                  var s := Session(Flat(p.iov), total, calls);
                  s.done && FirstTake(calls).Some? && FirstTake(calls).value >= |Flat(p.iov)| ==>
                    (Reads(s.wire, page.mapped.value, page.setCookie) <==> page.fileSize < 0x8000_0000))
  {
    hide Headed, Media, SizeAsInt, ReadReply, DeclaredLength, Session, Total;
    if page.fileSize != 0 {
      var head := Headed("", SizeAsInt(page.fileSize), Media(page), page.linger, page.setCookie);
      FlatTwo(head, page.mapped.value);
      FileHead(page, SizeAsInt(page.fileSize), page.mapped.value);
      HeadSize(page, SizeAsInt(page.fileSize));
      TotalWhole(|head|, page.fileSize);
      var total := Total(|head|, page.fileSize);
      if Session(head + page.mapped.value, total, calls).done {
        if total == 0 {
          NothingSent(head + page.mapped.value, calls);
          NothingRead();
        } else {
          FirstWrite(head + page.mapped.value, total, calls);
        }
      }
    }
  }

  /** In all, what it reads of a file below two gigabytes. */
  lemma FileWire(page: Page, iov: seq<string>, calls: seq<seq<nat>>)
    requires page.mapped.Some? && |page.mapped.value| == page.fileSize && 0 < page.fileSize < 0x7fff_0000
    requires Positive(calls)
    ensures var p := Produce(page, FileRequest, "", iov);
            && p.ok && p.iov == [p.written, page.mapped.value] && Flat(p.iov) == FileAnswer(page)
            && var s := Session(FileAnswer(page), Total(|p.written|, page.fileSize), calls);
               s.done && FirstTake(calls).Some? && FirstTake(calls).value >= |FileAnswer(page)| ==>
                 s.wire == FileAnswer(page)
    ensures ReadReply(FileAnswer(page))
            == Reply(["HTTP/1.1 200 OK", "Content-Length: " + Decimal(page.fileSize), "Content-Type:" + Media(page),
                      if page.linger then "Connection: keep-alive" else "Connection: close"]
                     + (if page.setCookie then ["Set-Cookie: is_login=true; Max-Age=3600; Path=/"] else []),
                     page.mapped.value)
  {
    hide Headed, MediaType, ReadReply, Session, Total, Decimal;
    FlatTwo(Headed("", SizeAsInt(page.fileSize), Media(page), page.linger, page.setCookie), page.mapped.value);
    MediaShort(page.url);
    JsonShort();
    ReplyLines(page.fileSize, Media(page), page.linger, page.setCookie, page.mapped.value);
    HeadSize(page, page.fileSize);
    FileHead(page, page.fileSize, page.mapped.value);
    var p := Produce(page, FileRequest, "", iov);
    TotalWhole(|p.written|, page.fileSize);
    if Session(FileAnswer(page), Total(|p.written|, page.fileSize), calls).done {
      FirstWrite(FileAnswer(page), Total(|p.written|, page.fileSize), calls);
    }
  }

  lemma TotalWhole(written: nat, fileSize: nat)
    ensures Total(written, fileSize) <= written + fileSize
    ensures 0 < written && written + fileSize < 0x8000_0000 ==> Total(written, fileSize) == written + fileSize
    ensures 0 < written <= 1024 && Total(written, fileSize) == 0 ==> fileSize >= 0x8000_0000
  {
  }

  /** A short first write breaks the response: if it took the head and stopped where the
      next byte is not an 'H', as the response itself begins, the client does not read the
      file, whatever the later writes take. */
  lemma ShortWrite(page: Page, iov: seq<string>, calls: seq<seq<nat>>)
    requires page.mapped.Some? && |page.mapped.value| == page.fileSize != 0 && Positive(calls)
    requires var p := Produce(page, FileRequest, "", iov);
             var total := Total(|p.written|, page.fileSize);
             && Session(Flat(p.iov), total, calls).done && FirstTake(calls).Some?
             && var t := FirstTake(calls).value;
                |p.written| <= t < |Flat(p.iov)| && t < total && Flat(p.iov)[t] != 'H'
    ensures var p := Produce(page, FileRequest, "", iov);
            var s := Session(Flat(p.iov), Total(|p.written|, page.fileSize), calls);
            !Reads(s.wire, page.mapped.value, page.setCookie)
  {
    hide Headed, Media, SizeAsInt, ReadReply, DeclaredLength, Session, Total;
    var head := Headed("", SizeAsInt(page.fileSize), Media(page), page.linger, page.setCookie);
    var file, t := page.mapped.value, FirstTake(calls).value;
    FlatTwo(head, file);
    var answer := head + file;
    var w := Session(answer, Total(|head|, page.fileSize), calls).wire;
    FileHead(page, SizeAsInt(page.fileSize), file);
    FirstWrite(answer, Total(|head|, page.fileSize), calls);
    var body := w[|head|..];
    assert w[..|head|] == w[..t][..|head|] == answer[..t][..|head|] == head;
    assert w == head + body;
    FileHead(page, SizeAsInt(page.fileSize), body);
    assert body[t - |head|] == w[t] == answer[0] == 'H';
    assert file[t - |head|] == answer[t];
  }

  /** For one, the socket takes just the head at first: then the head is sent twice. */
  lemma HeadTwice(page: Page, iov: seq<string>)
    requires page.mapped.Some? && |page.mapped.value| == page.fileSize && 0 < page.fileSize < 0x7000_0000
    requires page.mapped.value[0] != 'H'
    ensures var p := Produce(page, FileRequest, "", iov);
            var s := Session(Flat(p.iov), Total(|p.written|, page.fileSize), [[|p.written|, |Flat(p.iov)|]]);
            && s == Sent(p.written + Flat(p.iov), true)
            && !Reads(s.wire, page.mapped.value, page.setCookie)
  {
    hide Headed, Media, SizeAsInt, Total, ReadReply, DeclaredLength;
    var head := Headed("", SizeAsInt(page.fileSize), Media(page), page.linger, page.setCookie);
    var file := page.mapped.value;
    var answer := head + file;
    FlatTwo(head, file);
    FileHead(page, SizeAsInt(page.fileSize), file);
    HeadSize(page, SizeAsInt(page.fileSize));
    TotalWhole(|head|, page.fileSize);
    var calls := [[|head|, |answer|]];
    TwoWrites(answer, head);
    FileHead(page, SizeAsInt(page.fileSize), answer);
  }

  lemma HeadSize(page: Page, length: int)
    requires -0x8000_0000 <= length < 0x8000_0000
    ensures |Headed("", length, Media(page), page.linger, page.setCookie)| <= 262
  {
    hide Headed, MediaType, ReadReply;
    MediaShort(page.url);
    JsonShort();
    HeadRead(length, Media(page), page.linger, page.setCookie, "");
  }

  lemma TwoWrites(answer: string, head: string)
    requires head <= answer && 0 < |head| < |answer|
    ensures Session(answer, |answer|, [[|head|, |answer|]]) == Sent(head + answer, true)
  {
    var takes := [|head|, |answer|];
    assert takes[1..] == [|answer|] && answer[..|answer|] == answer;
    assert Sends(answer, |answer| - |head|, [|answer|]) == Sent(answer, true);
    assert Sends(answer, |answer|, takes) == Sent(answer[..|head|] + answer, true);
  }

  // The API.

  /** The text of each answer of `do_request`. */
  function JsonText(reply: ApiReply): string {
    match reply
    case RegSuccess => "{\"code\": 200, \"msg\": \"Reg Success\", \"url\": \"/index.html\"}"
    case DbError => "{\"code\": 500, \"msg\": \"DB Error\"}"
    case UserExists => "{\"code\": 400, \"msg\": \"User Exist\"}"
    case LoginSuccess => "{\"code\": 200, \"msg\": \"Login Success\", \"url\": \"/welcome.html\"}"
    case LoginFailed => "{\"code\": 401, \"msg\": \"Login Failed\"}"
  }

  /** The answers, word for word. */
  lemma ApiTexts()
    ensures JsonText(RegSuccess) == "{\"code\": 200, \"msg\": \"Reg Success\", \"url\": \"/index.html\"}"
    ensures JsonText(DbError) == "{\"code\": 500, \"msg\": \"DB Error\"}"
    ensures JsonText(UserExists) == "{\"code\": 400, \"msg\": \"User Exist\"}"
    ensures JsonText(LoginSuccess) == "{\"code\": 200, \"msg\": \"Login Success\", \"url\": \"/welcome.html\"}"
    ensures JsonText(LoginFailed) == "{\"code\": 401, \"msg\": \"Login Failed\"}"
  {
  }

  lemma JsonTextShort(reply: ApiReply)
    ensures |JsonText(reply)| <= 100
  {
  }

  /** The fields that `do_request` leaves for the response to an API request; `fileSize` is
      what was left on the object before. */
  function ApiPage(a: Answer, linger: bool, url: string, fileSize: nat): Page
    requires a.Answer?
  {
    Page(linger, a.setCookie, true, Some(JsonText(a.reply)), url, fileSize, None)
  }

  /** The response to an API request, built in an empty write buffer. */
  function ApiReplyBytes(a: Answer, linger: bool, url: string, fileSize: nat): string
    requires a.Answer?
  {
    Produce(ApiPage(a, linger, url, fileSize), GetRequest, "", []).written
  }

  /** What the calls of `write` put on the wire for it. */
  function ApiWire(a: Answer, linger: bool, url: string, fileSize: nat, calls: seq<seq<nat>>): Sent
    requires a.Answer?
  {
    var w := ApiReplyBytes(a, linger, url, fileSize);
    Session(w, Total(|w|, fileSize), calls)
  }

  /** No writev is short, and the calls come to their end. */
  predicate ApiSent(a: Answer, linger: bool, url: string, fileSize: nat, calls: seq<seq<nat>>)
    requires a.Answer?
  {
    AllTakesAll(calls, |ApiReplyBytes(a, linger, url, fileSize)|) && ApiWire(a, linger, url, fileSize, calls).done
  }

  /** The client of an API request reads the answer, with the cookie in its head exactly
      if it was set, exactly if no file size is left on the object.  Otherwise the answer
      is sent more than once. */
  lemma ApiAnswered(a: Answer, linger: bool, url: string, fileSize: nat, calls: seq<seq<nat>>)
    requires a.Answer? && ApiSent(a, linger, url, fileSize, calls) && fileSize < 0x7fff_0000
    ensures Reads(ApiWire(a, linger, url, fileSize, calls).wire, JsonText(a.reply), a.setCookie) <==> fileSize == 0
  {
    hide Reads, JsonText, Session, Total, OnceOnly, Headed, AllTakesAll;
    var page := ApiPage(a, linger, url, fileSize);
    var p := Produce(page, GetRequest, "", []);
    JsonTextShort(a.reply);
    JsonHead(page, JsonText(a.reply), "");
    FlatOne(p.written);
    JsonReply(page, [], calls);
    NotEmpty(p.written, JsonText(a.reply), a.setCookie);
    JsonSize(page);
    OnceIs(|p.written|, fileSize);
  }

  /** That answer, line by line. */
  lemma ApiLines(a: Answer, linger: bool, url: string, fileSize: nat)
    requires a.Answer?
    ensures var text := JsonText(a.reply);
            ReadReply(ApiReplyBytes(a, linger, url, fileSize))
            == Reply(["HTTP/1.1 200 OK", "Content-Length: " + Decimal(|text|),
                      "Content-Type:application/json;charset=utf-8",
                      if linger then "Connection: keep-alive" else "Connection: close"]
                     + (if a.setCookie then ["Set-Cookie: is_login=true; Max-Age=3600; Path=/"] else []), text)
  {
    hide Headed, ReadReply, JsonText, Decimal, Reads;
    var page := ApiPage(a, linger, url, fileSize);
    JsonTextShort(a.reply);
    JsonHead(page, JsonText(a.reply), "");
    JsonShort();
    ReplyLines(|JsonText(a.reply)|, JSON, linger, a.setCookie, JsonText(a.reply));
    JsonTypeWords();
  }

  lemma JsonTypeWords()
    ensures "Content-Type:" + JSON == "Content-Type:application/json;charset=utf-8"
  {
  }

  lemma JsonSize(page: Page)
    requires page.isJson && page.jsonString.Some? && |page.jsonString.value| <= 700
    ensures |Produce(page, GetRequest, "", []).written| < WRITE_SIZE
  {
    hide Headed;
    JsonShort();
    HeadRead(|page.jsonString.value|, JSON, page.linger, page.setCookie, "");
  }
}
