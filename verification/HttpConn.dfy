/** `HttpConn` as the source has it: one mutable buffer, three cursors, fields
    assigned as lines are read.  Every method is proved to take the state where
    the functions of RequestHead take it. */
module HttpConnection {
  import opened Basics
  import opened CString
  import RH = RequestHead
  import Multipart

  class HttpConn {
    const readBuf: array<char>
    var readIdx: nat
    var checkedIdx: nat
    var startLine: nat
    var checkState: RH.Phase
    var meth: RH.Method
    var url: RH.Ptr
    var version: RH.Ptr
    var host: RH.Ptr
    var linger: bool
    var contentLength: int
    var cookieIsLogin: bool
    var isMultipart: bool
    var boundary: string
    var body: RH.Ptr
    var uploadFilename: string
    var upload: Option<RH.File>

    /** The bytes received, and zeros behind them. */
    ghost predicate Buffered()
      reads this, readBuf
    {
      readIdx < readBuf.Length && forall k | readIdx <= k < readBuf.Length :: readBuf[k] == NUL
    }

    ghost predicate Valid()
      reads this, readBuf
    {
      Buffered() && startLine <= checkedIdx <= readIdx && NUL !in boundary && |boundary| < Multipart.BOUNDARY_MAX
    }

    ghost function State(): RH.Conn
      requires readIdx <= readBuf.Length
      reads this, readBuf
    {
      RH.Conn(readBuf[..readIdx], checkedIdx, startLine, checkState, meth, url, version, host, linger,
              contentLength, cookieIsLogin, isMultipart, boundary, body, uploadFilename, upload)
    }

    constructor (size: nat)
      requires size > 0
      ensures Valid() && State() == RH.FRESH && fresh(readBuf) && readBuf.Length == size
    {
      readBuf := new char[size](_ => NUL);
      readIdx, checkedIdx, startLine := 0, 0, 0;
      checkState, meth := RH.RequestLine, RH.GET;
      url, version, host, body := RH.Null, RH.Null, RH.Null, RH.Null;
      linger, contentLength, cookieIsLogin, isMultipart := false, 0, false, false;
      boundary, uploadFilename, upload := "", "", None;
    }

    /** `init_parse_state`, called again between the requests of one connection. */
    method InitParseState()
      requires readBuf.Length > 0
      modifies this, readBuf
      ensures Valid() && State() == RH.FRESH
    {
      ClearBuffer();
      ResetFields();
    }

    method ClearBuffer()
      modifies readBuf
      ensures forall k | 0 <= k < readBuf.Length :: readBuf[k] == NUL
    {
      forall k | 0 <= k < readBuf.Length {
        readBuf[k] := NUL;
      }
    }

    method ResetFields()
      requires readBuf.Length > 0 && forall k | 0 <= k < readBuf.Length :: readBuf[k] == NUL
      modifies this
      ensures Valid() && State() == RH.FRESH
    {
      readIdx, checkedIdx, startLine := 0, 0, 0;
      ResetPointers();
      ResetFlags();
    }

    method ResetPointers()
      modifies this`checkState, this`meth, this`url, this`version, this`host, this`body
      ensures checkState == RH.RequestLine && meth == RH.GET
      ensures url == version == host == body == RH.Null
    {
      checkState, meth := RH.RequestLine, RH.GET;
      url, version, host, body := RH.Null, RH.Null, RH.Null, RH.Null;
    }

    method ResetFlags()
      modifies this`linger, this`contentLength, this`cookieIsLogin, this`isMultipart,
               this`boundary, this`uploadFilename, this`upload
      ensures !linger && contentLength == 0 && !cookieIsLogin && !isMultipart
      ensures boundary == uploadFilename == "" && upload == None
    {
      linger, contentLength, cookieIsLogin, isMultipart := false, 0, false, false;
      boundary, uploadFilename, upload := "", "", None;
    }

    /** `read_once`: `pending` is what the socket holds, `open` says that it then
        reports EAGAIN rather than end of stream or an error.  Each `recv` takes any
        part of it that fits.  A read that fills the buffer asks for zero bytes
        next, and fails: after a successful read the buffer is never full. */
    method ReadOnce(pending: string, open: bool) returns (ok: bool)
      requires Valid()
      modifies this`readIdx, readBuf
      ensures ok <==> open && old(readIdx) + |pending| < readBuf.Length
      ensures ok ==> Valid() && State() == RH.Receive(old(State()), pending)
    {
      var left := pending;
      ghost var before := readBuf[..readIdx];
      while true
        invariant old(readIdx) <= readIdx <= readBuf.Length
        invariant |left| <= |pending| && left == pending[|pending| - |left|..]
        invariant readIdx == old(readIdx) + |pending| - |left|
        invariant readBuf[..readIdx] == before + pending[..|pending| - |left|]
        invariant forall k | readIdx <= k < readBuf.Length :: readBuf[k] == NUL
        decreases |left|
      {
        var room := readBuf.Length - readIdx;
        if room == 0 {
          return false;
        }
        if left == "" {
          if open {
            assert pending[..|pending|] == pending;
            return true;
          }
          return false;
        }
        var most := if |left| < room then |left| else room;
        var n: nat :| 1 <= n <= most;
        ghost var i0 := readIdx;
        forall k | 0 <= k < n {
          readBuf[readIdx + k] := left[k];
        }
        readIdx := readIdx + n;
        assert readBuf[..i0] == before + pending[..|pending| - |left|];
        assert readBuf[..readIdx] == readBuf[..i0] + left[..n];
        assert pending[..|pending| - |left| + n] == pending[..|pending| - |left|] + left[..n];
        left := left[n..];
      }
    }

    /** `parse_line`. */
    method ParseLine() returns (status: RH.LineStatus)
      requires Valid()
      modifies this`checkedIdx, readBuf
      ensures Valid() && RH.Scanned(State(), status) == RH.Scan(old(State()))
    {
      ghost var k := FirstOf(readBuf[..readIdx], checkedIdx, RH.EOL);
      ghost var c := State();
      while checkedIdx < readIdx
        invariant startLine <= checkedIdx <= k <= readIdx
        invariant State() == c.(checked := checkedIdx) && Buffered()
        invariant RH.Scan(c) == RH.ScanAt(c, k)
      {
        hide RH.ScanAt, RH.Scan, FirstOf;
        assert readBuf[checkedIdx] == c.buf[checkedIdx];
        var temp := readBuf[checkedIdx];
        if temp == CR {
          SameScan(c, k);
          status := AtCr();
          return;
        } else if temp == LF {
          SameScan(c, k);
          status := AtLf();
          return;
        }
        checkedIdx := checkedIdx + 1;
      }
      return RH.LineOpen;
    }

    static lemma SameScan(c: RH.Conn, k: nat)
      requires k <= |c.buf| && (k < |c.buf| ==> c.buf[k] in RH.EOL)
      ensures RH.ScanAt(c.(checked := k), k) == RH.ScanAt(c, k)
    {
    }

    /** The cursor is on a CR. */
    method AtCr() returns (status: RH.LineStatus)
      requires Valid() && checkedIdx < readIdx && readBuf[checkedIdx] == CR
      modifies this`checkedIdx, readBuf
      ensures Valid() && RH.Scanned(State(), status) == RH.ScanAt(old(State()), old(checkedIdx))
    {
      ghost var b := readBuf[..readIdx];
      ghost var k := checkedIdx;
      assert b[k] == CR;
      if checkedIdx + 1 == readIdx {
        return RH.LineOpen;
      } else if readBuf[checkedIdx + 1] == LF {
        assert b[k + 1] == LF;
        readBuf[checkedIdx] := NUL;
        readBuf[checkedIdx + 1] := NUL;
        checkedIdx := checkedIdx + 2;
        assert readBuf[..readIdx] == RH.PutNul(RH.PutNul(b, k), k + 1);
        return RH.LineOk;
      }
      assert b[k + 1] != LF;
      return RH.LineBad;
    }

    /** The cursor is on a LF. */
    method AtLf() returns (status: RH.LineStatus)
      requires Valid() && checkedIdx < readIdx && readBuf[checkedIdx] == LF
      modifies this`checkedIdx, readBuf
      ensures Valid() && RH.Scanned(State(), status) == RH.ScanAt(old(State()), old(checkedIdx))
    {
      ghost var b := readBuf[..readIdx];
      ghost var k := checkedIdx;
      assert b[k] == LF;
      if checkedIdx > 1 && readBuf[checkedIdx - 1] == CR {
        assert b[k - 1] == CR;
        readBuf[checkedIdx - 1] := NUL;
        readBuf[checkedIdx] := NUL;
        checkedIdx := checkedIdx + 1;
        assert readBuf[..readIdx] == RH.PutNul(RH.PutNul(b, k - 1), k);
        return RH.LineOk;
      }
      assert k > 1 ==> b[k - 1] != CR;
      return RH.LineBad;
    }

    // Writes into the received bytes.

    method PutNul(i: nat)
      requires Valid() && i < readIdx
      modifies readBuf
      ensures Valid() && readBuf[..readIdx] == RH.PutNul(old(readBuf[..readIdx]), i)
    {
      readBuf[i] := NUL;
    }

    /** `strcpy(m_read_buf + at, w)`. */
    method CopyString(at: nat, w: string)
      requires Valid() && at + |w| <= readIdx
      modifies readBuf
      ensures Valid() && readBuf[..readIdx] == Overwrite(old(readBuf[..readIdx]), at, w)
    {
      ghost var b := readBuf[..readIdx];
      var i := 0;
      while i < |w|
        invariant 0 <= i <= |w|
        invariant forall k | 0 <= k < readBuf.Length ::
                    readBuf[k] == if at <= k < at + i then w[k - at] else old(readBuf[k])
      {
        readBuf[at + i] := w[i];
        i := i + 1;
      }
      var r := readBuf[..readIdx];
      assert forall k | 0 <= k < readIdx :: b[k] == old(readBuf[k]) && r[k] == readBuf[k];
      OverwriteIs(b, at, w, r);
    }

    /** Reading a finished line as a C string stops inside it. */
    lemma LineString(text: nat)
      requires Valid() && RH.AfterLine(State(), text)
      ensures CStr(readBuf[..], text) == CStr(readBuf[..readIdx], text)
    {
      RH.LineEndsInside(State(), text);
      CStrLocal(readBuf[..readIdx], readBuf[..], text, checkedIdx);
    }

    /** `parse_request_line`. */
    method ParseRequestLine(text: nat) returns (code: RH.Code)
      requires Valid() && RH.AfterLine(State(), text)
      modifies this`checkState, this`meth, this`url, this`version, readBuf
      ensures Valid() && RH.Step(State(), code) == RH.ParseRequestLine(old(State()), text)
    {
      hide RH.PutNul, FirstOf, CStr, StrEnd, EqNoCase, RH.SplitTarget, RH.SplitFits, RH.Cuts;
      ghost var c := State();
      LineString(text);
      RH.LineEndsInside(c, text);
      var s := CStr(readBuf[..], text);
      ghost var x := RH.SplitLine(s);
      var p := FirstOf(s, 0, BLANK);
      if p == |s| {
        url := RH.Null;
        CutsAtMethod(c, text, x, |s|);
        return RH.BadRequest;
      }
      hide RH.SplitLine, RH.ParseRequestLine;
      code := TakeMethod(text, s, p, c);
    }

    /** `parse_request_line` from the end of the method on. */
    method TakeMethod(text: nat, s: string, p: nat, ghost c: RH.Conn) returns (code: RH.Code)
      requires Valid() && p == FirstOf(s, 0, BLANK) < |s| && text + |s| + 2 <= checkedIdx
      requires c == State()
      modifies this`checkState, this`meth, this`url, this`version, readBuf
      ensures Valid() && RH.Step(State(), code) == RH.Cuts(c, text, RH.SplitLine(s), |s|)
    {
      hide RH.PutNul, FirstOf, EqNoCase, RH.SplitTarget, RH.SplitFits, RH.Cuts;
      ghost var x := RH.SplitLine(s);
      PutNul(text + p);
      url := RH.At(text + p + 1);
      var name := s[..p];
      var known := ChooseMethod(name);
      if !known {
        assert x == RH.BadMethod(p);
        CutsAtMethod(c, text, x, |s|);
        return RH.BadRequest;
      }
      code := FindVersion(text, s, p, c);
    }

    static lemma CutsAtMethod(c: RH.Conn, text: nat, x: RH.Split, n: nat)
      requires RH.SplitFits(x, n) && (n > 0 ==> text + n + 2 <= c.checked <= |c.buf|)
      ensures x.NoTarget? ==> RH.Cuts(c, text, x, n) == RH.Step(c.(url := RH.Null), RH.BadRequest)
      ensures x.BadMethod? ==>
                RH.Cuts(c, text, x, n)
                == RH.Step(c.(buf := RH.PutNul(c.buf, text + x.p), url := RH.At(text + x.p + 1)), RH.BadRequest)
    {
    }

    method ChooseMethod(name: string) returns (known: bool)
      modifies this`meth
      ensures known <==> EqNoCase(name, "GET") || EqNoCase(name, "POST")
      ensures meth == if EqNoCase(name, "GET") then RH.GET else if known then RH.POST else old(meth)
    {
      hide EqNoCase;
      if EqNoCase(name, "GET") {
        meth := RH.GET;
      } else if EqNoCase(name, "POST") {
        meth := RH.POST;
      } else {
        return false;
      }
      return true;
    }

    /** `parse_request_line` from the target on: the method ends at `p`. */
    method FindVersion(text: nat, s: string, p: nat, ghost c: RH.Conn) returns (code: RH.Code)
      requires Valid() && p < |s| && text + |s| + 2 <= checkedIdx
      requires |c.buf| == readIdx && c.checked == checkedIdx
      requires State() == c.(buf := RH.PutNul(c.buf, text + p), meth := meth, url := RH.At(text + p + 1))
      modifies this`checkState, this`url, this`version, readBuf
      ensures Valid() && RH.Step(State(), code) == RH.Cuts(c, text, RH.SplitTarget(s, meth, p), |s|)
      ensures meth == old(meth)
    {
      hide RH.PutNul, RH.AcceptedBytes, FirstOf, Span, EqNoCase, RH.SplitPath, RH.SplitFits, RH.Accept;
      ghost var x := RH.SplitTarget(s, meth, p);
      var q := Span(s, p + 1, BLANK);
      url := RH.At(text + q);
      var v := FirstOf(s, q, BLANK);
      if v == |s| {
        version := RH.Null;
        assert x == RH.NoVersion(meth, p, q);
        return RH.BadRequest;
      }
      PutNul(text + v);
      version := RH.At(text + v + 1);
      assert State() == RH.Separated(c, text, meth, p, v, RH.At(text + q));
      if !EqNoCase(s[v + 1..], "HTTP/1.1") {
        assert x == RH.BadVersion(meth, p, q, v);
        return RH.BadRequest;
      }
      assert v + 9 == |s| by { EqLength(s[v + 1..], "HTTP/1.1"); }
      hide RH.Cuts, RH.Separated;
      code := FindPath(text, s, p, q, v, c);
    }

    static lemma EqLength(a: string, b: string)
      requires EqNoCase(a, b)
      ensures |a| == |b|
    {
    }

    /** The end of `parse_request_line`, on the target `s[q..v]`. */
    method FindPath(text: nat, s: string, p: nat, q: nat, v: nat, ghost c: RH.Conn) returns (code: RH.Code)
      requires Valid() && p < q < v && v + 9 == |s| && text + |s| + 2 <= checkedIdx
      requires |c.buf| == readIdx && c.checked == checkedIdx
      requires State() == RH.Separated(c, text, meth, p, v, RH.At(text + q))
      modifies this`checkState, this`url, readBuf
      ensures Valid()
      ensures RH.Step(State(), code) == RH.Cuts(c, text, RH.SplitPath(s, meth, p, q, v), |s|)
    {
      hide RH.PutNul, RH.PathStart, Overwrite, RH.SplitFits, RH.Accept, RH.Refuse, RH.Separated,
           PrefixNoCase, RH.Cuts, RH.SplitPath;
      ghost var d := State();
      var absolute := PrefixNoCase(s[q..v], "http://");
      var u := SkipAuthority(s, q, v, absolute);
      SplitPathIs(c, text, s, meth, p, q, v, u);
      if absolute {
        url := if u == v then RH.Null else RH.At(text + u);
      }
      if u == v || s[u] != '/' {
        return RH.BadRequest;
      }
      if v == u + 1 {
        CopyString(text + v, RH.INDEX);
      }
      checkState := RH.Header;
      return RH.NoRequest;
    }

    /** Accepting or refusing a path, as assignments to the separated line. */
    static lemma SplitPathIs(c: RH.Conn, text: nat, s: string, m: RH.Method, p: nat, q: nat, v: nat, u: nat)
      requires p < q < v && v + 9 == |s| && text + |s| + 2 <= c.checked <= |c.buf|
      requires u == RH.PathStart(s, q, v)
      ensures var d := RH.Separated(c, text, m, p, v, RH.At(text + q));
              RH.Cuts(c, text, RH.SplitPath(s, m, p, q, v), |s|)
              == if u == v then RH.Step(d.(url := RH.Null), RH.BadRequest)
                 else if s[u] != '/' then RH.Step(d.(url := RH.At(text + u)), RH.BadRequest)
                 else if v == u + 1 then
                   RH.Step(d.(url := RH.At(text + u), phase := RH.Header,
                              buf := Overwrite(d.buf, text + v, RH.INDEX)), RH.NoRequest)
                 else RH.Step(d.(url := RH.At(text + u), phase := RH.Header), RH.NoRequest)
    {
      hide RH.PathStart, Overwrite, RH.PutNul, RH.SplitFits;
    }

    /** `m_url += 7` and `strchr(m_url, '/')` on the target `s[q..v]`, if it is absolute. */
    static method SkipAuthority(s: string, q: nat, v: nat, absolute: bool) returns (u: nat)
      requires q < v <= |s| && absolute == PrefixNoCase(s[q..v], "http://")
      ensures u == RH.PathStart(s, q, v) && (!absolute ==> u == q)
    {
      u := if absolute then FirstOf(s[..v], q + 7, {'/'}) else q;
    }

    /** `parse_headers`. */
    method ParseHeaders(text: nat) returns (code: RH.Code)
      requires Valid() && RH.AfterLine(State(), text)
      modifies this`checkState, this`linger, this`contentLength, this`host, this`cookieIsLogin,
               this`isMultipart, this`boundary
      ensures Valid() && RH.Step(State(), code) == RH.ParseHeaderLine(old(State()), text)
    {
      hide FirstOf, CStr, StrEnd, RH.NamedField;
      LineString(text);
      var s := CStr(readBuf[..], text);
      if s == "" {
        if contentLength != 0 {
          checkState := RH.Content;
          return RH.NoRequest;
        }
        return RH.Dispatch;
      }
      code := ParseField(text, s);
    }

    /** `parse_headers` on a line that is not empty. */
    method ParseField(text: nat, s: string) returns (code: RH.Code)
      requires Valid() && NUL !in s
      modifies this`linger, this`contentLength, this`host, this`cookieIsLogin, this`isMultipart, this`boundary
      ensures Valid() && RH.Step(State(), code) == RH.Apply(old(State()), text, RH.NamedField(s))
    {
      hide Span, EqNoCase, PrefixNoCase, Find, Atol, ToInt, RH.TypeField;
      ghost var f := RH.NamedField(s);
      code := RH.NoRequest;
      if PrefixNoCase(s, "Connection:") {
        if EqNoCase(s[Span(s, 11, BLANK)..], "keep-alive") {
          linger := true;
        }
      } else if PrefixNoCase(s, "Content-Length:") {
        contentLength := ToInt(Atol(s[Span(s, 15, BLANK)..]));
      } else if PrefixNoCase(s, "Host:") {
        host := RH.At(text + Span(s, 5, BLANK));
      } else if PrefixNoCase(s, "Cookie:") {
        if Find(s[Span(s, 7, BLANK)..], "is_login=true").Some? {
          cookieIsLogin := true;
        }
      } else if PrefixNoCase(s, "Content-Type:") {
        assert f == RH.TypeField(s[Span(s, 13, BLANK)..]);
        hide RH.NamedField, RH.Apply;
        code := ParseContentType(text, s);
      }
    }

    /** The Content-Type branch of `parse_headers`. */
    method ParseContentType(text: nat, s: string) returns (code: RH.Code)
      requires Valid() && PrefixNoCase(s, "Content-Type:") && NUL !in s
      modifies this`isMultipart, this`boundary
      ensures Valid()
      ensures var f := RH.TypeField(s[Span(s, 13, BLANK)..]);
              RH.Step(State(), code) == RH.Apply(old(State()), text, f)
    {
      hide Span, PrefixNoCase, Find;
      code := RH.NoRequest;
      var v := s[Span(s, 13, BLANK)..];
      if PrefixNoCase(v, "multipart/form-data") {
        isMultipart := true;
        var at := Find(v, "boundary=");
        if at.Some? {
          var mark := v[at.value + 9..];
          if |mark| >= Multipart.BOUNDARY_MAX {
            return RH.Undefined;
          }
          boundary := mark;
        }
      }
    }

    // The body.

    /** `parse_content`.  The terminating NUL may go just behind the bytes received:
        the buffer is never full, so it stays inside the array. */
    method ParseContent(text: nat, canOpen: string -> bool) returns (code: RH.Code)
      requires Valid() && text <= checkedIdx
      modifies this`body, this`url, this`uploadFilename, this`upload, readBuf
      ensures Valid() && RH.Step(State(), code) == RH.ParseContent(old(State()), text, canOpen)
    {
      hide RH.ParseMultipart;
      if contentLength + checkedIdx >= 0x8000_0000 {
        return RH.Undefined;
      }
      if readIdx < contentLength + checkedIdx {
        return RH.NoRequest;
      }
      if text + contentLength < 0 {
        return RH.Undefined;
      }
      ghost var c := State();
      var w: nat := text + contentLength;
      readBuf[w] := NUL;
      assert readBuf[..readIdx] == if w < readIdx then RH.PutNul(c.buf, w) else c.buf;
      if isMultipart {
        code := ParseMultipart(text, canOpen);
        return;
      }
      body := RH.At(text);
      return RH.Dispatch;
    }

    /** `parse_multipart_content` on a body whose end holds a NUL. */
    method ParseMultipart(text: nat, canOpen: string -> bool) returns (code: RH.Code)
      requires Valid() && text <= readIdx && 0 <= text + contentLength <= readIdx
      requires readBuf[text + contentLength] == NUL
      modifies this`url, this`uploadFilename, this`upload
      ensures Valid() && RH.Step(State(), code) == RH.ParseMultipart(old(State()), text, canOpen)
    {
      hide Multipart.ParseHeader, CStr, Find, FirstOf;
      PrefixCStr(readBuf[..], readIdx, text);
      var end := text + contentLength;
      var h := FindHeader(CStr(readBuf[..], text));
      if h.NoName? {
        return RH.BadRequest;
      }
      uploadFilename := h.name;
      if h.NoData? {
        return RH.BadRequest;
      }
      var dataStart := text + h.data;
      var n := FindEnd(dataStart, end);
      if n.None? {
        return RH.BadRequest;
      }
      code := StoreFile(h.name, dataStart, dataStart + n.value, canOpen);
    }

    /** The search for the closing delimiter, over the data that ends at `end`. */
    method FindEnd(dataStart: nat, end: nat) returns (n: Option<nat>)
      requires Valid() && end <= readIdx && readBuf[end] == NUL
      ensures n == if end < dataStart then None
                   else Find(readBuf[..readIdx][dataStart..end], Multipart.Delimiter(boundary))
    {
      hide Find;
      var mark := "--" + boundary;
      n := Multipart.SearchEnd(readBuf, dataStart, end - dataStart, mark);
      assert Multipart.Delimiter(boundary) == CRLF + mark;
      if dataStart <= end {
        PrefixSlice(readBuf[..], readIdx, dataStart, end);
        assert readBuf[dataStart..end] == readBuf[..][dataStart..end];
      }
    }

    /** Writing the file, if it can be opened. */
    method StoreFile(name: string, dataStart: nat, dataEnd: nat, canOpen: string -> bool) returns (code: RH.Code)
      requires Valid() && dataStart <= dataEnd <= readIdx
      modifies this`url, this`upload
      ensures Valid()
      ensures var c := old(State());
              RH.Step(State(), code)
              == if !canOpen(name) then RH.Step(c, RH.InternalError)
                 else RH.Step(c.(upload := Some(RH.File(name, c.buf[dataStart..dataEnd])),
                                 url := RH.Literal(RH.WELCOME)), RH.Dispatch)
    {
      if !canOpen(name) {
        return RH.InternalError;
      }
      PrefixSlice(readBuf[..], readIdx, dataStart, dataEnd);
      upload := Some(RH.File(name, readBuf[dataStart..dataEnd]));
      url := RH.Literal(RH.WELCOME);
      return RH.Dispatch;
    }

    /** The `strstr` and `strchr` calls over the part header. */
    static method FindHeader(s: string) returns (h: Multipart.Header)
      ensures h == Multipart.ParseHeader(s)
    {
      hide FindFrom, FirstOf;
      var line := Find(s, CRLF);
      if line.None? {
        return Multipart.NoName;
      }
      var field := FindFrom(s, Multipart.FILENAME, line.value + 2);
      if field.None? {
        return Multipart.NoName;
      }
      var f := field.value + |Multipart.FILENAME|;
      var q := FirstOf(s, f, {'"'});
      if q == |s| {
        return Multipart.NoName;
      }
      var name := Multipart.Take(s[f..q], Multipart.NAME_MAX);
      var data := FindFrom(s, Multipart.BLANK_LINE, q);
      if data.None? {
        return Multipart.NoData(name);
      }
      return Multipart.Header.Header(name, data.value + 4);
    }

    // The driver.

    /** `process_read`.  `Dispatch` is returned where the source calls `do_request`. */
    method ProcessRead(canOpen: string -> bool) returns (code: RH.Code)
      requires Valid()
      modifies this, readBuf
      ensures Valid() && readIdx == old(readIdx)
      ensures RH.Step(State(), code) == RH.ProcessRead(old(State()), canOpen)
    {
      hide RH.Run, RH.Handle, RH.Scan, RH.AfterLine;
      var lineStatus := RH.LineOk;
      ghost var c := State();
      while true
        invariant Valid() && readIdx == old(readIdx)
        invariant RH.Run(State(), lineStatus, canOpen) == RH.Run(c, RH.LineOk, canOpen)
        decreases readIdx - checkedIdx, if checkState == RH.Content && lineStatus == RH.LineOk then 1 else 0
      {
        ghost var d := State();
        RunUnfolds(d, lineStatus, canOpen);
        if checkState != RH.Content || lineStatus != RH.LineOk {
          lineStatus := ParseLine();
          if lineStatus != RH.LineOk {
            return RH.NoRequest;
          }
        }
        var done;
        code, lineStatus, done := HandleLine(canOpen);
        if done {
          return;
        }
      }
    }

    static lemma RunUnfolds(d: RH.Conn, status: RH.LineStatus, canOpen: string -> bool)
      requires RH.Valid(d)
      ensures d.phase == RH.Content && status == RH.LineOk ==>
                RH.Run(d, status, canOpen) == RH.Handle(d, canOpen)
      ensures var s := RH.Scan(d);
              d.phase != RH.Content || status != RH.LineOk ==>
                RH.Run(d, status, canOpen)
                == if s.status == RH.LineOk then RH.Handle(s.conn, canOpen) else RH.Step(s.conn, RH.NoRequest)
    {
      hide RH.Scan, RH.Handle;
    }

    /** The body of the loop: the `switch` on the check state. */
    method HandleLine(canOpen: string -> bool) returns (code: RH.Code, lineStatus: RH.LineStatus, done: bool)
      requires Valid() && (checkState == RH.Content || RH.AfterLine(State(), startLine))
      modifies this, readBuf
      ensures Valid() && readIdx == old(readIdx) && checkedIdx == old(checkedIdx)
      ensures done ==> RH.Step(State(), code) == RH.Handle(old(State()), canOpen)
      ensures !done ==> RH.Run(State(), lineStatus, canOpen) == RH.Handle(old(State()), canOpen)
      ensures old(checkState) == RH.Content ==> checkState == RH.Content && lineStatus == RH.LineOpen
    {
      hide RH.ParseRequestLine, RH.ParseHeaderLine, RH.ParseContent, RH.Run;
      var text := startLine;
      startLine := checkedIdx;
      lineStatus := if checkState == RH.Content then RH.LineOpen else RH.LineOk;
      match checkState {
        case RequestLine =>
          code := ParseRequestLine(text);
          done := code == RH.BadRequest;
        case Header =>
          code := ParseHeaders(text);
          done := code != RH.NoRequest;
        case Content =>
          code := ParseContent(text, canOpen);
          done := code == RH.Dispatch || code == RH.Undefined;
      }
    }
  }
}
