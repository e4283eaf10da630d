/** What the parser answers to a whole request, for every cutting of it into reads. */
module Answers {
  import opened Basics
  import opened CString
  import opened RequestHead
  import opened HeadCuts
  import opened HeadMeaning
  import opened Requests
  import opened SplitBodies
  import Multipart

  lemma NoBodyBefore(chunks: seq<string>)
    requires chunks != [] && ReadHead(Flatten(chunks), 0, NONE_YET).outcome != HasBody
    ensures BodyInLastRead("", chunks)
  {
    hide ReadHead;
    forall n | 1 <= n < |chunks| ensures ReadHead("" + Flatten(chunks[..n]), 0, NONE_YET).outcome != HasBody {
      FlattenSplit(chunks, n);
      assert "" + Flatten(chunks[..n]) == Flatten(chunks[..n]);
      HeadExtends(Flatten(chunks[..n]), Flatten(chunks[n..]), 0, NONE_YET);
    }
  }

  lemma {:induction false} FlattenSplit(chunks: seq<string>, n: nat)
    requires n <= |chunks|
    ensures Flatten(chunks) == Flatten(chunks[..n]) + Flatten(chunks[n..])
  {
    if n == 0 {
      assert chunks[..0] == [] && chunks[0..] == chunks;
    } else {
      FlattenTail(chunks, n);
      FlattenSplit(chunks[1..], n - 1);
      assert chunks[1..][n - 1..] == chunks[n..];
    }
  }

  /** A request without a body: the answer and every field are those of the
      request head, read line by line from the raw bytes. */
  lemma HeadOnly(chunks: seq<string>, canOpen: string -> bool)
    requires chunks != [] && ReadHead(Flatten(chunks), 0, NONE_YET).outcome != HasBody
    ensures var h := ReadHead(Flatten(chunks), 0, NONE_YET);
            var r := Feed(FRESH, chunks, canOpen);
            && r.code == CodeFor(h.outcome)
            && (h.outcome == Complete ==>
                  SameFields(r.conn, h.req) && SamePointers(r.conn.buf, r.conn, h.next, h.req)
                  && r.conn.checked == h.next && SameTail(r.conn.buf, Flatten(chunks), h.next))
  {
    hide ReadHead, ProcessRead, Feed;
    NoBodyBefore(chunks);
    AnyCuts(chunks, canOpen);
    var raw := Flatten(chunks);
    StaysInHead(raw, canOpen);
    FreshSim(raw);
    var d := HeadSim(Receive(FRESH, raw), raw, 0, NONE_YET, canOpen);
  }

  /** A form is answered exactly if some read lets the parser find a body.  Then
      `do_request` has at `m_string` the announced number of bytes from where it was found,
      and the fields of the head. */
  lemma FormAnswered(chunks: seq<string>, h: Head, n: nat, canOpen: string -> bool)
    requires Announces(Flatten(chunks), h, n) && !h.req.multipart
    ensures var at := Found(chunks, h, n);
            var r := Feed(FRESH, chunks, canOpen);
            && r.code == (if at.Some? then Dispatch else NoRequest)
            && (at.Some? ==> FormGiven(r.conn, Flatten(chunks), h, at.value, n))
  {
    hide Feed, ReadHead, Flatten, BodyRun, BodyPieces, FormGiven, FormFound, SamePointers;
    AnnouncesFacts(Flatten(chunks), h, n);
    var d := EveryCut(chunks, h, n, canOpen);
    var pieces := BodyPieces(chunks, h.next);
    FormRun(d, pieces, n, canOpen);
    if Found(chunks, h, n).Some? {
      FormHas(Feed(d, pieces, canOpen).conn, d, Flatten(chunks), h, Found(chunks, h, n).value, n);
    }
  }

  /** The form handler's view of the raw bytes. */
  predicate FormGiven(c: Conn, raw: string, h: Head, at: nat, n: nat) {
    && h.next + at + n <= |raw| == |c.buf| && c.body == At(h.next + at) && c.contentLength == n
    && c.buf[h.next + at..h.next + at + n] == raw[h.next + at..h.next + at + n]
    && SameFields(c, h.req) && SamePointers(c.buf, c, h.next, h.req)
  }

  lemma FormHas(c: Conn, d: Conn, raw: string, h: Head, at: nat, n: nat)
    requires h.next <= |raw| && FormFound(c, d, raw[h.next..], at, n) && d.contentLength == n
    requires |d.buf| == h.next && SameFields(d, h.req) && SamePointers(d.buf, d, h.next, h.req)
    ensures FormGiven(c, raw, h, at, n)
  {
    hide SamePointers;
    assert raw[h.next..][at..at + n] == raw[h.next + at..h.next + at + n] by { SliceTail(raw, h.next, at, n); }
    PointersGrow(d, c, h.next, h.req);
  }

  lemma SliceTail(raw: string, o: nat, at: nat, n: nat)
    requires o + at + n <= |raw|
    ensures raw[o..][at..at + n] == raw[o + at..o + at + n]
  {
  }

  /** Pointers into the head outlive what comes behind it. */
  lemma PointersGrow(d: Conn, c: Conn, n: nat, req: Request)
    requires n == |d.buf| <= |c.buf| && SamePointers(d.buf, d, n, req)
    requires (forall k | 0 <= k < n :: c.buf[k] == d.buf[k]) && c.url == d.url && c.host == d.host
    ensures SamePointers(c.buf, c, n, req)
  {
    hide CStr, StrEnd;
    if req.phase != RequestLine {
      CStrLocal(d.buf, c.buf, req.url.at, n);
    }
    if req.host.Some? {
      CStrLocal(d.buf, c.buf, req.host.value.at, n);
    }
  }

  /** An upload is stored and reaches `do_request`, its URL now the literal
      "/welcome.html", if the body the parser finds holds a part whose file can be opened.
      Where it finds no body, or finds it without such a part and nothing follows,
      there is no answer: `process_read` drops the `BAD_REQUEST` or `INTERNAL_ERROR` of
      `parse_content`. */
  lemma UploadDispatched(chunks: seq<string>, h: Head, n: nat, canOpen: string -> bool)
    requires Announces(Flatten(chunks), h, n) && h.req.multipart
    ensures var at := Found(chunks, h, n);
            var r := Feed(FRESH, chunks, canOpen);
            && (at.None? ==> r.code == NoRequest)
            && (at.Some? ==>
                  && h.next + at.value + n <= |Flatten(chunks)|
                  && var file := Uploaded(Flatten(chunks), h, at.value, n, canOpen);
                     && (file.Some? ==> UploadGiven(r, h, file))
                     && (file.None? && |Flatten(chunks)| == h.next + n && chunks[|chunks| - 1] != "" ==>
                           r.code == NoRequest))
  {
    hide Feed, ReadHead, BodyRun, BodyPieces, Storable, SamePointers, Flatten;
    AnnouncesFacts(Flatten(chunks), h, n);
    var d := EveryCut(chunks, h, n, canOpen);
    var pieces := BodyPieces(chunks, h.next);
    UploadRun(d, pieces, n, canOpen);
    if Found(chunks, h, n).Some? {
      var at := Found(chunks, h, n).value;
      assert |Flatten(pieces)| == |Flatten(chunks)| - h.next;
      SliceTail(Flatten(chunks), h.next, at, n);
      SomeRead(chunks);
      if |Flatten(chunks)| == h.next + n && chunks[|chunks| - 1] != "" {
        PiecesBefore(chunks, h.next);
      }
    }
  }

  lemma SomeRead(chunks: seq<string>)
    ensures |Flatten(chunks)| > 0 ==> chunks != []
  {
  }

  /** An upload with nothing behind it reaches `do_request` exactly if what came of it
      before the last read is empty or begins with a lone CR or LF, and it has the form of a
      part whose file can be opened; then that file is stored. */
  lemma UploadExactly(chunks: seq<string>, h: Head, n: nat, canOpen: string -> bool)
    requires Announces(Flatten(chunks), h, n) && h.req.multipart
    requires |Flatten(chunks)| == h.next + n && chunks[|chunks| - 1] != ""
    ensures var r := Feed(FRESH, chunks, canOpen);
            var b := Before(chunks);
            var body := Flatten(chunks)[h.next..];
            && (r.code == Dispatch
                <==> (|b| <= h.next || Untouched(b[h.next..]))
                     && exists name, data ::
                          Multipart.FileForm(body, h.req.boundary, name, data) && canOpen(name))
            && (r.code != Dispatch ==> r.code == NoRequest)
            && (r.code == Dispatch ==>
                  r.conn.upload.Some?
                  && Multipart.FileForm(body, h.req.boundary, r.conn.upload.value.name, r.conn.upload.value.data))
  {
    hide Feed, ReadHead, Flatten, Found, Untouched, Multipart.ParsePart, Multipart.FileForm;
    var body := Flatten(chunks)[h.next..];
    assert Flatten(chunks)[h.next + 0..h.next + 0 + n] == body;
    UploadDispatched(chunks, h, n, canOpen);
    OneRequest(chunks, h, n);
    var file := Storable(body, h.req.boundary, canOpen);
    forall name, data ensures Multipart.FileForm(body, h.req.boundary, name, data)
                              <==> var p := Multipart.ParsePart(body, 0, |body|, h.req.boundary);
                                   p.Found? && p.name == name && data == body[p.dataStart..p.dataEnd]
    {
      Multipart.FileExactly(body, h.req.boundary, name, data);
    }
    assert file.Some? ==> Multipart.FileForm(body, h.req.boundary, file.value.name, file.value.data);
    if name, data :| Multipart.FileForm(body, h.req.boundary, name, data) && canOpen(name) {
      assert file.Some?;
    }
  }

  /** The file in the `n` bytes that the parser takes for the body. */
  function Uploaded(raw: string, h: Head, at: nat, n: nat, canOpen: string -> bool): Option<File>
    requires h.next + at + n <= |raw|
  {
    Storable(raw[h.next + at..h.next + at + n], h.req.boundary, canOpen)
  }

  predicate UploadGiven(r: Step, h: Head, file: Option<File>) {
    r.code == Dispatch && r.conn.upload == file && r.conn.url == Literal(WELCOME) && r.conn.cookie == h.req.cookie
  }

  /** A printed upload that the parser finds in its place is stored: its file name (up to
      99 bytes) and every data byte. */
  lemma UploadStored(chunks: seq<string>, h: Head, body: string, before: string, name: string, after: string,
                     data: string, tail: string, canOpen: string -> bool)
    requires Announces(Flatten(chunks), h, |body|) && h.req.multipart
    requires Found(chunks, h, |body|) == Some(0) && body <= Flatten(chunks)[h.next..]
    requires body == Multipart.Print(h.req.boundary, before, name, after, data, tail)
    requires Multipart.Printable(h.req.boundary, before, name, after, data)
    requires canOpen(Multipart.Take(name, 99))
    ensures UploadGiven(Feed(FRESH, chunks, canOpen), h, Some(File(Multipart.Take(name, 99), data)))
  {
    hide *;
    AnnouncesFacts(Flatten(chunks), h, |body|);
    PrintedUploaded(Flatten(chunks), h, body, before, name, after, data, tail, canOpen);
    UploadDispatched(chunks, h, |body|, canOpen);
  }

  lemma PrintedUploaded(raw: string, h: Head, body: string, before: string, name: string, after: string,
                        data: string, tail: string, canOpen: string -> bool)
    requires h.next <= |raw| && body <= raw[h.next..]
    requires body == Multipart.Print(h.req.boundary, before, name, after, data, tail)
    requires Multipart.Printable(h.req.boundary, before, name, after, data)
    requires canOpen(Multipart.Take(name, 99))
    ensures h.next + |body| <= |raw|
    ensures Uploaded(raw, h, 0, |body|, canOpen) == Some(File(Multipart.Take(name, 99), data))
  {
    hide Multipart.Printable, Multipart.Print, Multipart.Take, Storable;
    SliceTail(raw, h.next, 0, |body|);
    assert raw[h.next..][0..|body|] == body;
    PrintedStorable(body, h.req.boundary, before, name, after, data, tail, canOpen);
  }

  lemma PrintedStorable(body: string, boundary: string, before: string, name: string, after: string,
                        data: string, tail: string, canOpen: string -> bool)
    requires body == Multipart.Print(boundary, before, name, after, data, tail)
    requires Multipart.Printable(boundary, before, name, after, data)
    requires canOpen(Multipart.Take(name, 99))
    ensures Storable(body, boundary, canOpen) == Some(File(Multipart.Take(name, 99), data))
  {
    hide Multipart.Printable, Multipart.Print, Multipart.Take, Multipart.ParsePart, OccursAt;
    OccursSelf(body);
    Multipart.RoundTrip(body, 0, body, boundary, before, name, after, data, tail);
    OccursSlice(body, data, Multipart.ParsePart(body, 0, |body|, boundary).dataStart);
  }
}
