/** The response half of `HttpConn` (`add_response` to `process_write`): formatting
    into a 1024-byte buffer, and what a client reads out of the bytes sent. */
module Response {
  import opened Basics
  import opened CString
  import opened Sending

  const WRITE_SIZE: nat := 1024

  /** `%d` of a number that is not negative. */
  function Decimal(n: nat): (s: string)
    ensures s != []
  {
    if n < 10 then [Digit(n)] else Decimal(n / 10) + [Digit(n % 10)]
  }

  function Digit(d: nat): char
    requires d < 10
  {
    (('0' as int) + d) as char
  }

  function Int(i: int): string {
    if i < 0 then "-" + Decimal(-i) else Decimal(i)
  }

  /** The codes `process_write` tells apart; `BadRequest` stands for all it does not. */
  datatype WriteCode = GetRequest | FileRequest | InternalError | NoResource | Forbidden | BadRequest

  const OK_PAGE: string := "<html><body></body></html>"
  const JSON: string := "application/json;charset=utf-8"

  function MediaType(url: string): string {
    var dot := LastDot(url, |url|);
    if dot.None? then "text/html" else SuffixType(url[dot.value..])
  }

  function SuffixType(suffix: string): string {
    if EqNoCase(suffix, ".html") then "text/html"
    else if EqNoCase(suffix, ".css") then "text/css"
    else if EqNoCase(suffix, ".js") then "text/javascript"
    else if EqNoCase(suffix, ".jpg") || EqNoCase(suffix, ".jpeg") then "image/jpeg"
    else if EqNoCase(suffix, ".png") then "image/png"
    else if EqNoCase(suffix, ".gif") then "image/gif"
    else if EqNoCase(suffix, ".mp4") then "video/mp4"
    else "text/html"
  }

  /** `strrchr(url, '.')`. */
  function LastDot(url: string, n: nat): (k: Option<nat>)
    requires n <= |url|
    ensures k.Some? ==> k.value < n
  {
    if n == 0 then None else if url[n - 1] == '.' then Some(n - 1) else LastDot(url, n - 1)
  }

  lemma {:induction false} LastDotIs(url: string, n: nat, k: nat)
    requires k < n <= |url| && url[k] == '.' && forall j | k < j < n :: url[j] != '.'
    ensures LastDot(url, n) == Some(k)
  {
    if n > k + 1 {
      LastDotIs(url, n - 1, k);
    }
  }

  /** The media type depends on what follows the last dot, and on nothing else; upper
      and lower case are the same. */
  lemma MediaByExtension(stem: string, other: string, name: string, same: string)
    requires '.' !in name && '.' !in same && EqNoCase(name, same)
    ensures MediaType(stem + ("." + name)) == SuffixType("." + name)
    ensures MediaType(other + ("." + same)) == MediaType(stem + ("." + name))
  {
    hide EqNoCase, SuffixType;
    SuffixOf(stem, name);
    SuffixOf(other, same);
    SuffixCase(name, same);
  }

  /** The media types, word for word; a path without a dot, or with another suffix, is a page. */
  lemma MediaTypes(stem: string, name: string)
    requires '.' !in name
    ensures MediaType(stem + ("." + name))
            == if EqNoCase(name, "html") then "text/html"
               else if EqNoCase(name, "css") then "text/css"
               else if EqNoCase(name, "js") then "text/javascript"
               else if EqNoCase(name, "jpg") || EqNoCase(name, "jpeg") then "image/jpeg"
               else if EqNoCase(name, "png") then "image/png"
               else if EqNoCase(name, "gif") then "image/gif"
               else if EqNoCase(name, "mp4") then "video/mp4"
               else "text/html"
    ensures '.' !in stem ==> MediaType(stem) == "text/html"
  {
    hide EqNoCase;
    SuffixOf(stem, name);
    DotCase(name, "html", ".html");
    DotCase(name, "css", ".css");
    DotCase(name, "js", ".js");
    DotCase(name, "jpg", ".jpg");
    DotCase(name, "jpeg", ".jpeg");
    DotCase(name, "png", ".png");
    DotCase(name, "gif", ".gif");
    DotCase(name, "mp4", ".mp4");
    if '.' !in stem {
      NoDot(stem, |stem|);
    }
  }

  lemma DotCase(a: string, b: string, y: string)
    requires y == "." + b
    ensures EqNoCase("." + a, y) <==> EqNoCase(a, b)
  {
    var x := "." + a;
    assert forall j | 0 <= j < |a| :: x[1 + j] == a[j];
    assert forall j | 0 <= j < |b| :: y[1 + j] == b[j];
    if EqNoCase(x, y) {
      forall j | 0 <= j < |a| ensures Lower(a[j]) == Lower(b[j]) {
        assert Lower(x[1 + j]) == Lower(y[1 + j]);
      }
    }
    if EqNoCase(a, b) {
      forall i | 0 <= i < |x| ensures Lower(x[i]) == Lower(y[i]) {
        if i > 0 { assert x[1 + (i - 1)] == a[i - 1] && y[1 + (i - 1)] == b[i - 1]; }
      }
    }
  }

  lemma {:induction false} NoDot(url: string, n: nat)
    requires n <= |url| && forall j | 0 <= j < n :: url[j] != '.'
    ensures LastDot(url, n) == None
  {
    if n > 0 {
      NoDot(url, n - 1);
    }
  }

  lemma SuffixOf(stem: string, name: string)
    requires '.' !in name
    ensures MediaType(stem + ("." + name)) == SuffixType("." + name)
  {
    hide EqNoCase, SuffixType;
    var url := stem + ("." + name);
    LastDotIs(url, |url|, |stem|);
    assert url[|stem|..] == "." + name;
  }

  lemma SameCase(a: string, b: string, w: string)
    requires EqNoCase(a, b)
    ensures EqNoCase("." + a, w) <==> EqNoCase("." + b, w)
  {
    var x, y := "." + a, "." + b;
    assert forall j | 0 <= j < |a| :: x[1 + j] == a[j] && y[1 + j] == b[j];
    assert forall i | 0 <= i < |x| :: Lower(x[i]) == Lower(y[i]) by {
      forall i | 0 <= i < |x| ensures Lower(x[i]) == Lower(y[i]) {
        if i > 0 {
          assert x[1 + (i - 1)] == a[i - 1];
        }
      }
    }
  }

  lemma SuffixCase(a: string, b: string)
    requires EqNoCase(a, b)
    ensures SuffixType("." + a) == SuffixType("." + b)
  {
    hide EqNoCase;
    SameCase(a, b, ".html");
    SameCase(a, b, ".css");
    SameCase(a, b, ".js");
    SameCase(a, b, ".jpg");
    SameCase(a, b, ".jpeg");
    SameCase(a, b, ".png");
    SameCase(a, b, ".gif");
    SameCase(a, b, ".mp4");
  }

  /** Whether `add_response` has room for `text` behind `written` bytes. */
  predicate Fits(written: nat, text: string) {
    written + |text| + 1 < WRITE_SIZE
  }

  function Put(written: string, text: string): string {
    if Fits(|written|, text) then written + text else written
  }

  /** A text is kept, whole, exactly if with it there are at most 1022 bytes. */
  lemma RoomIs(written: string, text: string)
    requires text != ""
    ensures Put(written, text) == (if |written| + |text| <= 1022 then written + text else written)
  {
  }

  const COOKIE: string := "Set-Cookie: is_login=true" + "; Max-Age=3600; Path=/"

  /** The header lines `add_headers` prints. */
  function HeaderLines(length: int, media: string, linger: bool, cookie: bool): seq<string> {
    ["Content-Length: " + Int(length), "Content-Type:" + media,
     "Connection: " + (if linger then "keep-alive" else "close")] + if cookie then [COOKIE] else []
  }

  /** Each line in turn, as far as there is room for it. */
  function PutLines(written: string, lines: seq<string>): string
    decreases |lines|
  {
    if lines == [] then written
    else
      var n := |lines| - 1;
      Put(PutLines(written, lines[..n]), lines[n] + CRLF)
  }

  lemma PutOneMore(written: string, lines: seq<string>, line: string)
    ensures PutLines(written, lines + [line]) == Put(PutLines(written, lines), line + CRLF)
  {
    assert (lines + [line])[..|lines|] == lines;
  }

  /** A size as an int, as `add_headers` and `write` take it. */
  function SizeAsInt(size: nat): (r: int)
    ensures -0x8000_0000 <= r < 0x8000_0000 && r <= size
    ensures r == size <==> size < 0x8000_0000
  {
    ToInt(size)
  }

  function StatusLine(status: int, title: string): string {
    "HTTP/1.1 " + Int(status) + " " + title
  }

  /** A status line, the header lines and the blank line, as far as there is room. */
  function Headed(written: string, length: int, media: string, linger: bool, cookie: bool): string {
    Put(PutLines(Put(written, StatusLine(200, "OK") + CRLF), HeaderLines(length, media, linger, cookie)), CRLF)
  }

  function Failure(code: WriteCode): string {
    match code
    case InternalError => StatusLine(500, "Internal Server Error")
    case NoResource => StatusLine(404, "Not Found")
    case _ => StatusLine(403, "Forbidden")
  }

  /** What a response is made from: `jsonString` is the text of the API answer, `url` the
      requested path, `mapped` the bytes of the file mapped for it, and `fileSize` the
      size in `m_file_stat`, which the last file looked up on this object has left. */
  datatype Page = Page(
    linger: bool, setCookie: bool, isJson: bool, jsonString: Option<string>, url: string,
    fileSize: nat, mapped: Option<string>)

  function Media(page: Page): string {
    if page.isJson then JSON else MediaType(page.url)
  }

  function TextOf(page: Page): string {
    if page.isJson && page.jsonString.Some? then page.jsonString.value else OK_PAGE
  }

  /** What `process_write` returns and leaves: the write buffer, what the iovecs point at,
      and whether the cookie is still to be sent. */
  datatype Produced = Produced(ok: bool, written: string, iov: seq<string>, setCookie: bool)

  function Produce(page: Page, code: WriteCode, written: string, iov: seq<string>): Produced {
    match code
    case GetRequest => ProducePage(page, TextOf(page), written, iov)
    case FileRequest =>
      if page.fileSize == 0 then ProducePage(page, OK_PAGE, written, iov).(ok := false, iov := iov)
      else
        var head := Headed(written, SizeAsInt(page.fileSize), Media(page), page.linger, page.setCookie);
        Produced(true, head, [head, FileText(page)], false)
    case BadRequest => Produced(false, written, iov, page.setCookie)
    case _ =>
      var w := Put(written, Failure(code) + CRLF);
      Produced(true, w, [w], page.setCookie)
  }

  function FileText(page: Page): string {
    if page.mapped.Some? then page.mapped.value else ""
  }

  /** The total that `write` counts down: what is in the write buffer, and the file size. */
  function Total(written: nat, fileSize: nat): int {
    SizeAsInt(written + fileSize)
  }

  /** Head and text in the write buffer. */
  function ProducePage(page: Page, text: string, written: string, iov: seq<string>): Produced {
    var head := Headed(written, |text|, Media(page), page.linger, page.setCookie);
    var w := Put(head, text);
    if Fits(|head|, text) then Produced(true, w, [w], false) else Produced(false, w, iov, false)
  }

  /** What `write` arms the connection for. */
  datatype Arm = ForRead | ForWrite | Nothing

  class HttpConn {
    const writeBuf: array<char>
    var writeIdx: nat
    var linger: bool
    var setCookie: bool
    var isJson: bool
    var jsonString: Option<string>
    var url: string
    var fileSize: nat
    var mapped: Option<string>
    var iov: seq<string>      // what the iovecs point at
    var wire: string          // what was handed to the socket

    ghost predicate Valid()
      reads this`writeIdx
    {
      writeBuf.Length == WRITE_SIZE && writeIdx < WRITE_SIZE
    }

    ghost function Written(): string
      requires Valid()
      reads this`writeIdx, writeBuf
    {
      writeBuf[..writeIdx]
    }

    ghost function Asked(): Page
      reads this
    {
      Page(linger, setCookie, isJson, jsonString, url, fileSize, mapped)
    }

    /** `size` is whatever the memory holds: no constructor sets `m_file_stat`. */
    constructor (size: nat)
      ensures Valid() && Written() == "" && wire == "" && fresh(writeBuf)
      ensures Asked() == Page(false, false, false, None, "", size, None)
    {
      writeBuf := new char[WRITE_SIZE](_ => NUL);
      writeIdx, linger, setCookie, isJson := 0, false, false, false;
      jsonString, url, fileSize, mapped, iov, wire := None, "", size, None, [], "";
    }

    /** The part of `init_parse_state` that concerns the response.  It does not touch
        `m_file_stat`. */
    method InitParseState()
      requires Valid()
      modifies this`writeIdx, this`linger, this`setCookie, this`isJson, this`jsonString, this`url, this`mapped, writeBuf
      ensures Valid() && Written() == "" && Asked() == Page(false, false, false, None, "", fileSize, None)
    {
      writeIdx, linger, setCookie, isJson := 0, false, false, false;
      jsonString, url, mapped := None, "", None;
      forall k | 0 <= k < writeBuf.Length {
        writeBuf[k] := NUL;
      }
    }

    /** The end of `do_request` for a file that can be opened: `stat` and `mmap`. */
    method MapFile(file: string)
      requires Valid()
      modifies this`fileSize, this`mapped
      ensures Valid() && fileSize == |file| && mapped == Some(file) && Written() == old(Written())
    {
      fileSize, mapped := |file|, Some(file);
    }

    /** `unmap`. */
    method Unmap()
      requires Valid()
      modifies this`mapped
      ensures Valid() && mapped == None && Written() == old(Written())
    {
      mapped := None;
    }

    /** The loop of `write`, over the `text` that the iovecs point at. */
    method SendLoop(text: string, total: int, takes: seq<nat>) returns (done: bool)
      modifies this`wire
      ensures Sent(wire, done) == Sent(old(wire) + Sends(text, total, takes).wire, Sends(text, total, takes).done)
    {
      var bytesToSend := total;
      done := false;
      var i := 0;
      while i < |takes| && !done
        invariant 0 <= i <= |takes|
        invariant var s := Sends(text, total, takes);
                  if done then s.done && wire == old(wire) + s.wire
                  else var r := Sends(text, bytesToSend, takes[i..]);
                       old(wire) + s.wire == wire + r.wire && s.done == r.done
        decreases |takes| - i
      {
        var temp := Accepted(text, takes[i]);
        ghost var r := Sends(text, bytesToSend, takes[i..]);
        assert takes[i..][1..] == takes[i + 1..];
        wire := wire + text[..temp];
        bytesToSend := bytesToSend - temp;
        done := bytesToSend <= 0;
        i := i + 1;
      }
      assert !done ==> takes[i..] == [];
    }

    /** `write`: `takes` is what the socket has room for at each `writev`; after that it
        reports EAGAIN if `open`, else an error. */
    method Write(takes: seq<nat>, open: bool) returns (ok: bool, arm: Arm)
      requires Valid()
      modifies this`writeIdx, this`linger, this`setCookie, this`isJson, this`jsonString, this`url, this`mapped,
               this`wire, writeBuf
      ensures Valid()
      ensures var total := Total(|old(Written())|, fileSize);
              var s := Call(Flat(iov), total, takes);
              && wire == old(wire) + s.wire
              && ok == (if s.done then total == 0 || old(linger) else open)
              && arm == (if s.done then ForRead else if open then ForWrite else Nothing)
              && if s.done && (total == 0 || old(linger))
                 then Written() == "" && Asked() == Page(false, false, false, None, "", fileSize, None)
                 else Written() == old(Written())
                      && Asked() == old(Asked()).(mapped := if s.done || !open then None else old(mapped))
    {
      hide Total, Sends, Flat;
      var bytesToSend := Total(writeIdx, fileSize);
      if bytesToSend == 0 {
        InitParseState();
        return true, ForRead;
      }
      var done := SendLoop(Flat(iov), bytesToSend, takes);
      if done {
        Unmap();
        if linger {
          InitParseState();
          return true, ForRead;
        }
        return false, ForRead;
      }
      if open {
        return true, ForWrite;
      }
      Unmap();
      return false, Nothing;
    }

    /** `add_response` of the formatted `text`: prints as much as fits, keeps it only if
        all of it does. */
    method AddResponse(text: string) returns (ok: bool)
      requires Valid()
      modifies this`writeIdx, writeBuf
      ensures Valid() && ok == Fits(old(writeIdx), text)
      ensures Written() == Put(old(Written()), text)
    {
      if writeIdx >= WRITE_SIZE {
        return false;
      }
      var room := WRITE_SIZE - 1 - writeIdx;
      ghost var before := Written();
      var n := if |text| < room then |text| else if room > 0 then room - 1 else 0;
      forall k | 0 <= k < n {
        writeBuf[writeIdx + k] := text[k];
      }
      if room > 0 {
        writeBuf[writeIdx + n] := NUL;
      }
      assert Written() == before;
      if |text| >= room {
        return false;
      }
      ok := true;
      writeIdx := writeIdx + |text|;
      assert writeBuf[..writeIdx] == before + text;
    }

    /** One header line. */
    method AddLine(line: string, ghost before: string, ghost lines: seq<string>)
      requires Valid() && Written() == PutLines(before, lines)
      modifies this`writeIdx, writeBuf
      ensures Valid() && Written() == PutLines(before, lines + [line])
    {
      var ok := AddResponse(line + CRLF);
      PutOneMore(before, lines, line);
    }

    method AddHeaders(length: int, media: string)
      requires Valid()
      modifies this`writeIdx, this`setCookie, writeBuf
      ensures Valid() && !setCookie
      ensures Written() == Put(PutLines(old(Written()), HeaderLines(length, media, linger, old(setCookie))), CRLF)
    {
      hide PutLines, Int;
      ghost var before := Written();
      ghost var lines := HeaderLines(length, media, linger, setCookie);
      assert lines[..1] == [] + [lines[0]] && lines[..2] == lines[..1] + [lines[1]];
      assert lines[..3] == lines[..2] + [lines[2]];
      assert lines == if setCookie then lines[..3] + [COOKIE] else lines[..3];
      PutNone(before);
      AddLine("Content-Length: " + Int(length), before, []);
      AddLine("Content-Type:" + media, before, lines[..1]);
      AddLine("Connection: " + (if linger then "keep-alive" else "close"), before, lines[..2]);
      if setCookie {
        AddLine(COOKIE, before, lines[..3]);
        setCookie := false;
      }
      var ok := AddResponse(CRLF);
    }

    method ContentType() returns (media: string)
      ensures media == Media(Asked())
    {
      media := if isJson then JSON else MediaType(url);
    }

    /** A status line, headers and `text`, all in the write buffer. */
    method AddPage(text: string) returns (ok: bool)
      requires Valid()
      modifies this`writeIdx, this`setCookie, writeBuf
      ensures Valid()
      ensures Produced(ok, Written(), if ok then [Written()] else iov, setCookie)
              == ProducePage(old(Asked()), text, old(Written()), iov)
    {
      hide PutLines, HeaderLines, Put, Fits, MediaType;
      var media := ContentType();
      var line := AddResponse(StatusLine(200, "OK") + CRLF);
      AddHeaders(|text|, media);
      ok := AddResponse(text);
    }

    method AddFileHead()
      requires Valid()
      modifies this`writeIdx, this`setCookie, writeBuf
      ensures Valid() && !setCookie
      ensures Written()
              == Headed(old(Written()), SizeAsInt(fileSize), Media(old(Asked())), linger, old(setCookie))
    {
      hide PutLines, HeaderLines, Put, Fits, MediaType, SizeAsInt;
      var media := ContentType();
      var ok := AddResponse(StatusLine(200, "OK") + CRLF);
      AddHeaders(SizeAsInt(fileSize), media);
    }

    /** `process_write`. */
    method ProcessWrite(code: WriteCode) returns (ok: bool)
      requires Valid()
      modifies this`writeIdx, this`setCookie, this`iov, writeBuf
      ensures Valid()
      ensures Produced(ok, Written(), iov, setCookie) == Produce(old(Asked()), code, old(Written()), old(iov))
    {
      hide Headed, PutLines, HeaderLines, Put, Fits, MediaType, Media, Failure, SizeAsInt, ProducePage;
      match code {
        case InternalError =>
          ok := AddResponse(Failure(code) + CRLF);
        case NoResource =>
          ok := AddResponse(Failure(code) + CRLF);
        case Forbidden =>
          ok := AddResponse(Failure(code) + CRLF);
        case GetRequest =>
          ok := AddPage(if isJson && jsonString.Some? then jsonString.value else OK_PAGE);
          if !ok {
            return false;
          }
        case FileRequest =>
          if fileSize != 0 {
            AddFileHead();
            iov := [writeBuf[..writeIdx], if mapped.Some? then mapped.value else ""];
            return true;
          }
          ok := AddPage(OK_PAGE);
          return false;
        case BadRequest =>
          return false;
      }
      iov := [writeBuf[..writeIdx]];
      ok := true;
    }
  }

  lemma PutNone(written: string)
    ensures PutLines(written, []) == written
  {
  }
}
