/** Extraction of one uploaded file from a `multipart/form-data` body
    (`parse_multipart_content`). */
module Multipart {
  import opened Basics
  import opened CString

  const FILENAME: string := "filename=\""
  const BLANK_LINE: string := "\r\n\r\n"
  const NAME_MAX: nat := 99
  const BOUNDARY_MAX: nat := 100

  /** The outcome of the parse, before the file is written.  `m_upload_filename`
      is assigned as soon as the quoted name is found, even if the body is
      rejected later. */
  datatype Part =
    | Rejected(seen: Option<string>)
    | Found(name: string, dataStart: nat, dataEnd: nat)

  function Take(s: string, n: nat): (r: string)
    ensures r <= s && |r| == if |s| < n then |s| else n
  {
    if |s| < n then s else s[..n]
  }

  /** The line break and delimiter that end the file data (RFC 2046, section 5.1.1). */
  function Delimiter(boundary: string): string {
    CRLF + "--" + boundary
  }

  /** Where the pieces of the part header lie in the C string `s`: the value of
      the filename and the offset of the first data byte. */
  datatype Header = NoName | NoData(name: string) | Header(name: string, data: nat)

  function ParseHeader(s: string): (h: Header)
    ensures h.Header? ==> h.data <= |s|
  {
    match Find(s, CRLF)
    case None => NoName
    case Some(line) =>
      match FindFrom(s, FILENAME, line + 2)
      case None => NoName
      case Some(field) => ParseName(s, field + |FILENAME|)
  }

  /** The rest of the header, where the quoted filename starts at `f`. */
  function ParseName(s: string, f: nat): (h: Header)
    requires f <= |s|
    ensures h.Header? ==> h.data <= |s|
  {
    var q := FirstOf(s, f, {'"'});
    if q == |s| then NoName
    else
      var name := Take(s[f..q], NAME_MAX);
      match FindFrom(s, BLANK_LINE, q)
      case None => NoData(name)
      case Some(k) => Header(name, k + |BLANK_LINE|)
  }

  /** The part in the body that starts at `t` and, by its Content-Length, ends
      before `end`.  The data ends at the first delimiter lying wholly inside
      the body. */
  function ParsePart(b: string, t: nat, end: int, boundary: string): (p: Part)
    requires t <= |b| && end <= |b|
    ensures p.Found? ==> t <= p.dataStart <= p.dataEnd && p.dataEnd + |Delimiter(boundary)| <= end
  {
    match ParseHeader(CStr(b, t))
    case NoName => Rejected(None)
    case NoData(name) => Rejected(Some(name))
    case Header(name, k) =>
      var d := t + k;
      if end < d then Rejected(Some(name))
      else
        match Find(b[d..end], Delimiter(boundary))
        case None => Rejected(Some(name))
        case Some(n) => Found(name, d, d + n)
  }

  // Which bodies hold a part.

  /** `pat` occurs at `k`, and nowhere from `i` to there. */
  predicate First(s: string, pat: string, i: nat, k: nat) {
    i <= k && OccursAt(s, pat, k) && forall j | i <= j < k :: !OccursAt(s, pat, j)
  }

  /** Behind the first line end of `s` comes `filename="`, whose value a quote ends at
      `quote`; a blank line, at `blank`, is the first one behind that quote. */
  predicate PartForm(s: string, line: nat, field: nat, quote: nat, blank: nat) {
    && First(s, "\r\n", 0, line)
    && First(s, "filename=\"", line + 2, field)
    && field + 10 <= quote < |s| && s[quote] == '"' && (forall j | field + 10 <= j < quote :: s[j] != '"')
    && First(s, "\r\n\r\n", quote, blank)
  }

  lemma FirstExactly(s: string, pat: string, i: nat, k: nat)
    requires i <= |s|
    ensures FindFrom(s, pat, i) == Some(k) <==> First(s, pat, i, k)
  {
    FindFromIsFirst(s, pat, i);
    if First(s, pat, i, k) {
      FindFromUnique(s, pat, i, k);
    }
  }

  /** The header of a part is found exactly if it has that form. */
  lemma HeaderExactly(s: string, name: string, data: nat)
    ensures ParseHeader(s) == Header(name, data)
            <==> exists line: nat, field: nat, quote: nat, blank: nat ::
                   && PartForm(s, line, field, quote, blank)
                   && name == Take(s[field + 10..quote], 99) && data == blank + 4
  {
    hide FindFrom, FirstOf, Take, First;
    forall k: nat ensures Find(s, "\r\n") == Some(k) <==> First(s, "\r\n", 0, k) {
      FirstExactly(s, "\r\n", 0, k);
    }
    if ParseHeader(s) == Header(name, data) {
      var line := Find(s, CRLF).value;
      var field := FindFrom(s, FILENAME, line + 2).value;
      FirstExactly(s, FILENAME, line + 2, field);
      var quote := FirstOf(s, field + 10, {'"'});
      FirstExactly(s, BLANK_LINE, quote, data - 4);
      assert PartForm(s, line, field, quote, data - 4);
    }
    if line: nat, field: nat, quote: nat, blank: nat :|
      && PartForm(s, line, field, quote, blank)
      && name == Take(s[field + 10..quote], 99) && data == blank + 4
    {
      FormParsed(s, line, field, quote, blank);
    }
  }

  lemma FormParsed(s: string, line: nat, field: nat, quote: nat, blank: nat)
    requires PartForm(s, line, field, quote, blank)
    ensures ParseHeader(s) == Header(Take(s[field + 10..quote], 99), blank + 4)
  {
    hide FindFrom, FirstOf, Take;
    FirstExactly(s, CRLF, 0, line);
    FirstExactly(s, FILENAME, line + 2, field);
    FirstOfUnique(s, field + 10, {'"'}, quote);
    FirstExactly(s, BLANK_LINE, quote, blank);
  }

  /** A part is found exactly if its header, read as a C string, has that form and the
      first delimiter wholly inside the rest of the body ends its data. */
  lemma PartExactly(b: string, t: nat, end: nat, boundary: string, name: string, lo: nat, hi: nat)
    requires t <= |b| && end <= |b|
    ensures ParsePart(b, t, end, boundary) == Found(name, lo, hi)
            <==> exists line: nat, field: nat, quote: nat, blank: nat ::
                   && PartForm(CStr(b, t), line, field, quote, blank)
                   && name == Take(CStr(b, t)[field + 10..quote], 99)
                   && t + blank + 4 == lo <= end && lo <= hi
                   && First(b[lo..end], "\r\n--" + boundary, 0, hi - lo)
  {
    hide FindFrom, CStr, PartForm, First, ParseHeader, Take;
    var s := CStr(b, t);
    assert Delimiter(boundary) == "\r\n--" + boundary;
    if lo <= end && lo <= hi {
      FirstExactly(b[lo..end], "\r\n--" + boundary, 0, hi - lo);
    }
    if t <= lo {
      HeaderExactly(s, name, lo - t);
    }
  }

  /** The body has that form, with this file name, up to 99 bytes, and these data. */
  ghost predicate FileForm(body: string, boundary: string, name: string, data: string) {
    exists line: nat, field: nat, quote: nat, blank: nat ::
      && PartForm(CStr(body, 0), line, field, quote, blank)
      && name == Take(CStr(body, 0)[field + 10..quote], 99)
      && blank + 4 + |data| <= |body| && data == body[blank + 4..blank + 4 + |data|]
      && First(body[blank + 4..], "\r\n--" + boundary, 0, |data|)
  }

  lemma FileExactly(body: string, boundary: string, name: string, data: string)
    ensures FileForm(body, boundary, name, data)
            <==> var p := ParsePart(body, 0, |body|, boundary);
                 p.Found? && p.name == name && data == body[p.dataStart..p.dataEnd]
  {
    hide FindFrom, CStr, First, ParseHeader, Take, ParsePart;
    var p := ParsePart(body, 0, |body|, boundary);
    if p.Found? {
      PartExactly(body, 0, |body|, boundary, p.name, p.dataStart, p.dataEnd);
      assert body[p.dataStart..|body|] == body[p.dataStart..];
    }
    if FileForm(body, boundary, name, data) {
      FormHolds(body, boundary, name, data);
    }
  }

  lemma FormHolds(body: string, boundary: string, name: string, data: string)
    requires FileForm(body, boundary, name, data)
    ensures var p := ParsePart(body, 0, |body|, boundary);
            p.Found? && p.name == name && data == body[p.dataStart..p.dataEnd]
  {
    hide FindFrom, CStr, First, ParseHeader, Take, ParsePart;
    var line: nat, field: nat, quote: nat, blank: nat :|
      && PartForm(CStr(body, 0), line, field, quote, blank)
      && name == Take(CStr(body, 0)[field + 10..quote], 99)
      && blank + 4 + |data| <= |body| && data == body[blank + 4..blank + 4 + |data|]
      && First(body[blank + 4..], "\r\n--" + boundary, 0, |data|);
    assert body[blank + 4..|body|] == body[blank + 4..];
    PartExactly(body, 0, |body|, boundary, name, blank + 4, blank + 4 + |data|);
  }

  /** Without a `filename="` behind its first line end a body holds no part. */
  lemma NoFilename(b: string, t: nat, end: nat, boundary: string)
    requires t <= |b| && end <= |b|
    requires forall j, k | First(CStr(b, t), "\r\n", 0, j) && j + 2 <= k :: !OccursAt(CStr(b, t), "filename=\"", k)
    ensures ParsePart(b, t, end, boundary).Rejected?
  {
    hide FindFrom, CStr, OccursAt;
    var p := ParsePart(b, t, end, boundary);
    if p.Found? {
      PartExactly(b, t, end, boundary, p.name, p.dataStart, p.dataEnd);
    }
  }

  /** The delimiter search as the source runs it: `i` stops short of
      `dataLen - |mark|`, each probe may read one byte past the data, which is the
      NUL that `parse_content` wrote.  It finds the first delimiter that lies
      wholly inside the data, and fails only when there is none. */
  method SearchEnd(buf: array<char>, dataStart: nat, dataLen: int, mark: string) returns (r: Option<nat>)
    requires dataLen >= 0 ==> dataStart + dataLen < buf.Length && buf[dataStart + dataLen] == NUL
    requires NUL !in mark && mark != []
    ensures dataLen < 0 ==> r == None
    ensures dataLen >= 0 ==> r == Find(buf[dataStart..dataStart + dataLen], CRLF + mark)
  {
    r := None;
    if dataLen < 0 {
      return;
    }
    ghost var data := buf[dataStart..dataStart + dataLen];
    var i := 0;
    while i < dataLen - |mark|
      invariant 0 <= i && (i <= dataLen - |mark| || i == 0)
      invariant forall k | 0 <= k < i :: !OccursAt(data, CRLF + mark, k)
    {
      var at := dataStart + i;
      ProbeIsOccurrence(buf[..], dataStart, dataLen, mark, i);
      if buf[at..at + 2] == CRLF && buf[at + 2..at + 2 + |mark|] == mark {
        r := Some(i);
        FindFromUnique(data, CRLF + mark, 0, i);
        return;
      }
      i := i + 1;
    }
    FindNone(data, CRLF + mark);
  }

  /** A probe succeeds exactly where the delimiter lies inside the data: it never
      matches the terminating NUL. */
  lemma ProbeIsOccurrence(b: string, dataStart: nat, dataLen: nat, mark: string, i: nat)
    requires dataStart + dataLen < |b| && b[dataStart + dataLen] == NUL
    requires NUL !in mark && i < dataLen - |mark|
    ensures (b[dataStart + i..dataStart + i + 2] == CRLF
             && b[dataStart + i + 2..dataStart + i + 2 + |mark|] == mark)
            <==> OccursAt(b[dataStart..dataStart + dataLen], CRLF + mark, i)
  {
    var at := dataStart + i;
    var data := b[dataStart..dataStart + dataLen];
    var pat := CRLF + mark;
    OccursSlice(b, CRLF, at);
    OccursSlice(b, mark, at + 2);
    OccursConcat(b, at, CRLF, mark);
    if i + |pat| <= dataLen {
      OccursSlice(b, data, dataStart);
      OccursWithin(b, data, dataStart, pat, i);
    } else {
      // the probe ends on the NUL
      Mismatch(b, pat, at, dataLen - i);
    }
  }

  // Round trip: a printed part is read back exactly.

  /** A body with one file part.  `before` is what precedes the filename
      parameter in the part header, `after` what follows the closing quote, and
      `tail` what follows the closing delimiter. */
  function Print(boundary: string, before: string, name: string, after: string,
                 data: string, tail: string): string
  {
    ("--" + boundary)
    + (CRLF + (before + FILENAME + (name + ("\"" + after + BLANK_LINE + (data + (("\r\n--" + boundary) + tail))))))
  }

  /** `pat` first ends `s + pat` and does not start earlier. */
  ghost predicate FirstAtEnd(s: string, pat: string) {
    forall k | 0 <= k < |s| :: !OccursAt(s + pat, pat, k)
  }

  ghost predicate Printable(boundary: string, before: string, name: string, after: string, data: string) {
    && CR !in boundary && NUL !in boundary
    && NUL !in before && FirstAtEnd(before, FILENAME)
    && NUL !in name && '"' !in name
    && NUL !in after && FirstAtEnd(after, BLANK_LINE)
    && Find(data, Delimiter(boundary)) == None
  }

  /** The pieces of a part header, each at its offset in `s`. */
  ghost predicate Layout(s: string, boundary: string, before: string, name: string, after: string,
                         i1: nat, i2: nat, i3: nat, i4: nat)
  {
    && OccursAt(s, "--" + boundary, 0)
    && i1 == |boundary| + 4 && OccursAt(s, CRLF, i1 - 2)
    && i2 == i1 + |before| + |FILENAME| && OccursAt(s, before + FILENAME, i1)
    && i3 == i2 + |name| && OccursAt(s, name, i2)
    && i4 == i3 + 1 + |after| + |BLANK_LINE| && OccursAt(s, "\"" + after + BLANK_LINE, i3)
  }

  lemma PrintLayout(boundary: string, before: string, name: string, after: string, data: string, tail: string)
    returns (i1: nat, i2: nat, i3: nat, i4: nat)
    ensures var s := Print(boundary, before, name, after, data, tail);
            && Layout(s, boundary, before, name, after, i1, i2, i3, i4)
            && OccursAt(s, data + (Delimiter(boundary) + tail), i4)
            && |s| == i4 + |data + (Delimiter(boundary) + tail)|
  {
    var rest := data + (Delimiter(boundary) + tail);
    assert Delimiter(boundary) == "\r\n--" + boundary;
    i1 := |boundary| + 4;
    i2 := i1 + |before| + |FILENAME|;
    i3 := i2 + |name|;
    i4 := i3 + 1 + |after| + |BLANK_LINE|;
    PartPieces("--" + boundary, CRLF, before + FILENAME, name, "\"" + after + BLANK_LINE, rest);
  }

  /** Each piece of a concatenation occurs after the previous ones. */
  lemma PartPieces(p0: string, p1: string, p2: string, p3: string, p4: string, p5: string)
    ensures var s := p0 + (p1 + (p2 + (p3 + (p4 + p5))));
            && |s| == |p0| + |p1| + |p2| + |p3| + |p4| + |p5|
            && OccursAt(s, p0, 0)
            && OccursAt(s, p1, |p0|)
            && OccursAt(s, p2, |p0| + |p1|)
            && OccursAt(s, p3, |p0| + |p1| + |p2|)
            && OccursAt(s, p4, |p0| + |p1| + |p2| + |p3|)
            && OccursAt(s, p5, |p0| + |p1| + |p2| + |p3| + |p4|)
  {
    var s := p0 + (p1 + (p2 + (p3 + (p4 + p5))));
    OccursSelf(s);
    OccursConcat(s, 0, p0, p1 + (p2 + (p3 + (p4 + p5))));
    TailPieces(s, |p0|, p1, p2, p3 + (p4 + p5));
    TailPieces(s, |p0| + |p1| + |p2|, p3, p4, p5);
  }

  lemma TailPieces(s: string, off: nat, a: string, b: string, c: string)
    requires OccursAt(s, a + (b + c), off)
    ensures OccursAt(s, a, off) && OccursAt(s, b, off + |a|) && OccursAt(s, c, off + |a| + |b|)
  {
    OccursConcat(s, off, a, b + c);
    OccursConcat(s, off + |a|, b, c);
  }

  /** Searching from `off`, where `v + pat` occurs, the first match is where `v` ends. */
  lemma FindAfter(s: string, off: nat, v: string, pat: string)
    requires OccursAt(s, v + pat, off) && FirstAtEnd(v, pat)
    ensures FindFrom(s, pat, off) == Some(off + |v|)
  {
    OccursConcat(s, off, v, pat);
    forall k | off <= k < off + |v| ensures !OccursAt(s, pat, k) {
      OccursWithin(s, v + pat, off, pat, k - off);
    }
    FindFromUnique(s, pat, off, off + |v|);
  }

  /** A string without the first byte of `pat` in front brings no earlier match. */
  lemma SkipPrefix(u: string, v: string, pat: string)
    requires pat != [] && pat[0] !in u && FirstAtEnd(v, pat)
    ensures FirstAtEnd(u + v, pat)
  {
    var s := u + v + pat;
    assert s == u + (v + pat);
    OccursSelf(s);
    OccursConcat(s, 0, u, v + pat);
    OccursEach(s, u, 0);
    forall k | 0 <= k < |u + v| ensures !OccursAt(s, pat, k) {
      if k < |u| {
        assert s[0 + k] == u[k];
        Mismatch(s, pat, k, 0);
      } else {
        OccursWithin(s, v + pat, |u|, pat, k - |u|);
      }
    }
  }

  /** The part header reads back in any string that starts with it. */
  lemma HeaderRoundTrip(s: string, boundary: string, before: string, name: string, after: string,
                        i1: nat, i2: nat, i3: nat, i4: nat)
    requires CR !in boundary && '"' !in name
    requires FirstAtEnd(before, FILENAME) && FirstAtEnd(after, BLANK_LINE)
    requires Layout(s, boundary, before, name, after, i1, i2, i3, i4)
    ensures ParseHeader(s) == Header(Take(name, 99), i4)
  {
    LineSearch(s, boundary);
    FindAfter(s, i1, before, FILENAME);
    QuoteAfter(s, i2, name, "\"" + after + BLANK_LINE);
    BlankLineSearch(s, i3, after);
    NameParsed(s, i2, name, i4 - 4);
    HeaderParsed(s, i1 - 2, i2 - 10, Header(Take(name, NAME_MAX), i4));
  }

  /** The searches determine the parse of the header. */
  lemma NameParsed(s: string, i2: nat, name: string, k: nat)
    requires i2 <= |s| && FirstOf(s, i2, {'"'}) == i2 + |name|
    requires i2 + |name| < |s| && s[i2..i2 + |name|] == name
    requires FindFrom(s, BLANK_LINE, i2 + |name|) == Some(k)
    ensures ParseName(s, i2) == Header(Take(name, NAME_MAX), k + 4)
  {
    hide FindFrom, FirstOf, Take;
  }

  lemma HeaderParsed(s: string, line: nat, field: nat, h: Header)
    requires Find(s, CRLF) == Some(line) && FindFrom(s, FILENAME, line + 2) == Some(field)
    requires ParseName(s, field + 10) == h
    ensures ParseHeader(s) == h
  {
    hide FindFrom, Find, ParseName;
  }

  lemma LineSearch(s: string, boundary: string)
    requires CR !in boundary && OccursAt(s, "--" + boundary, 0) && OccursAt(s, CRLF, |boundary| + 2)
    ensures Find(s, CRLF) == Some(|boundary| + 2)
  {
    var open := "--" + boundary;
    assert |open| == |boundary| + 2;
    OccursEach(s, open, 0);
    forall k | 0 <= k < |open| ensures !OccursAt(s, CRLF, k) {
      assert s[0 + k] == open[k];
      Mismatch(s, CRLF, k, 0);
    }
    FindFromUnique(s, CRLF, 0, |open|);
  }

  lemma BlankLineSearch(s: string, i3: nat, after: string)
    requires FirstAtEnd(after, BLANK_LINE) && OccursAt(s, "\"" + after + BLANK_LINE, i3)
    ensures FindFrom(s, BLANK_LINE, i3) == Some(i3 + 1 + |after|)
  {
    SkipPrefix("\"", after, BLANK_LINE);
    FindAfter(s, i3, "\"" + after, BLANK_LINE);
  }

  lemma QuoteAfter(s: string, off: nat, name: string, w: string)
    requires '"' !in name && OccursAt(s, name, off)
    requires OccursAt(s, w, off + |name|) && w != [] && w[0] == '"'
    ensures FirstOf(s, off, {'"'}) == off + |name| && s[off..off + |name|] == name
  {
    OccursSlice(s, name, off);
    OccursEach(s, w, off + |name|);
    assert s[off + |name| + 0] == w[0];
    OccursEach(s, name, off);
    forall j | off <= j < off + |name| ensures s[j] != '"' {
      assert s[off + (j - off)] == name[j - off];
    }
    FirstOfUnique(s, off, {'"'}, off + |name|);
  }

  /** The end of the data reads back: no delimiter can straddle it, because its
      only CR is its first byte. */
  lemma DataRoundTrip(boundary: string, data: string, tail: string)
    requires CR !in boundary && Find(data, Delimiter(boundary)) == None
    ensures Find(data + (Delimiter(boundary) + tail), Delimiter(boundary)) == Some(|data|)
  {
    var pat := Delimiter(boundary);
    var s := data + (pat + tail);
    FindFromIsFirst(data, pat, 0);
    OccursSelf(s);
    OccursConcat(s, 0, data, pat + tail);
    OccursConcat(s, |data|, pat, tail);
    OccursEach(s, pat, |data|);
    assert s[|data| + 0] == pat[0] == CR;
    forall k | 0 <= k < |data| ensures !OccursAt(s, pat, k) {
      if k + |pat| <= |data| {
        OccursWithin(s, data, 0, pat, k);
      } else {
        assert pat[|data| - k] != CR;
        Mismatch(s, pat, k, |data| - k);
      }
    }
    FindFromUnique(s, pat, 0, |data|);
  }

  /** A header free of NUL lies wholly inside the C string that starts with it. */
  lemma LayoutInCStr(b: string, t: nat, body: string, boundary: string, before: string, name: string,
                     after: string, i1: nat, i2: nat, i3: nat, i4: nat)
    requires OccursAt(b, body, t) && Layout(body, boundary, before, name, after, i1, i2, i3, i4)
    requires NUL !in boundary && NUL !in before && NUL !in name && NUL !in after
    ensures Layout(CStr(b, t), boundary, before, name, after, i1, i2, i3, i4)
  {
    var s := CStr(b, t);
    OccursFree(body, "--" + boundary, 0);
    OccursFree(body, CRLF, i1 - 2);
    OccursFree(body, before + FILENAME, i1);
    OccursFree(body, name, i2);
    OccursFree(body, "\"" + after + BLANK_LINE, i3);
    assert forall k | 0 <= k < i4 :: body[k] != NUL;
    OccursEach(b, body, t);
    assert forall k | 0 <= k < |body| :: b[t + k] == body[k];
    assert |s| < |body| ==> b[t + |s|] == body[|s|];
    assert i4 <= |s|;
    assert forall k | 0 <= k < i4 :: s[k] == b[t + k] == body[k];
    OccursTransfer(body, s, i4, "--" + boundary, 0);
    OccursTransfer(body, s, i4, CRLF, i1 - 2);
    OccursTransfer(body, s, i4, before + FILENAME, i1);
    OccursTransfer(body, s, i4, name, i2);
    OccursTransfer(body, s, i4, "\"" + after + BLANK_LINE, i3);
  }

  lemma OccursFree(s: string, w: string, k: nat)
    requires OccursAt(s, w, k) && NUL !in w
    ensures forall i | k <= i < k + |w| :: s[i] != NUL
  {
    OccursSlice(s, w, k);
    forall i | k <= i < k + |w| ensures s[i] != NUL {
      assert s[i] == s[k..k + |w|][i - k];
    }
  }

  lemma OccursTransfer(s: string, s': string, n: nat, w: string, k: nat)
    requires OccursAt(s, w, k) && k + |w| <= n <= |s| && n <= |s'|
    requires forall i | 0 <= i < n :: s[i] == s'[i]
    ensures OccursAt(s', w, k)
  {
    OccursEach(s, w, k);
    OccursEach(s', w, k);
  }

  /** The part names the file and delimits exactly the bytes `data`. */
  predicate Recovers(b: string, p: Part, name: string, data: string) {
    p.Found? && p.name == name && p.dataEnd == p.dataStart + |data| && OccursAt(b, data, p.dataStart)
  }

  /** A printed part, found at `t` in any buffer, yields its filename (up to 99
      bytes) and exactly its data, NULs included. */
  lemma RoundTrip(b: string, t: nat, body: string, boundary: string, before: string, name: string,
                  after: string, data: string, tail: string)
    requires body == Print(boundary, before, name, after, data, tail)
    requires Printable(boundary, before, name, after, data)
    requires OccursAt(b, body, t)
    ensures Recovers(b, ParsePart(b, t, t + |body|, boundary), Take(name, 99), data)
  {
    assert CR !in boundary && Find(data, Delimiter(boundary)) == None by {
      PrintableData(boundary, before, name, after, data);
    }
    hide OccursAt, Print, Printable, ParsePart, ParseHeader, Find, Take, CStr;
    var i4 := HeaderInBuffer(b, t, body, boundary, before, name, after, data, tail);
    DataAt(b, t, body, boundary, data, tail, i4);
    Extracted(b, t, t + |body|, boundary, Take(name, NAME_MAX), i4, data);
  }

  lemma PrintableData(boundary: string, before: string, name: string, after: string, data: string)
    requires Printable(boundary, before, name, after, data)
    ensures CR !in boundary && Find(data, Delimiter(boundary)) == None
  {
  }

  lemma HeaderInBuffer(b: string, t: nat, body: string, boundary: string, before: string, name: string,
                       after: string, data: string, tail: string) returns (i4: nat)
    requires body == Print(boundary, before, name, after, data, tail)
    requires Printable(boundary, before, name, after, data)
    requires OccursAt(b, body, t)
    ensures ParseHeader(CStr(b, t)) == Header(Take(name, NAME_MAX), i4)
    ensures OccursAt(body, data + (Delimiter(boundary) + tail), i4)
    ensures |body| == i4 + |data + (Delimiter(boundary) + tail)|
  {
    var i1, i2, i3, i := PrintLayout(boundary, before, name, after, data, tail);
    i4 := i;
    LayoutInCStr(b, t, body, boundary, before, name, after, i1, i2, i3, i4);
    HeaderRoundTrip(CStr(b, t), boundary, before, name, after, i1, i2, i3, i4);
  }

  /** The header and the delimiter search determine the part. */
  lemma Extracted(b: string, t: nat, end: nat, boundary: string, name: string, i4: nat, data: string)
    requires t <= end <= |b| && ParseHeader(CStr(b, t)) == Header(name, i4)
    requires t + i4 <= end && Find(b[t + i4..end], Delimiter(boundary)) == Some(|data|)
    requires OccursAt(b, data, t + i4)
    ensures Recovers(b, ParsePart(b, t, end, boundary), name, data)
  {
  }

  lemma DataAt(b: string, t: nat, body: string, boundary: string, data: string, tail: string, i4: nat)
    requires CR !in boundary && Find(data, Delimiter(boundary)) == None
    requires OccursAt(b, body, t) && OccursAt(body, data + (Delimiter(boundary) + tail), i4)
    requires |body| == i4 + |data + (Delimiter(boundary) + tail)|
    ensures var d := t + i4;
            && Find(b[d..t + |body|], Delimiter(boundary)) == Some(|data|)
            && OccursAt(b, data, d)
  {
    var rest := data + (Delimiter(boundary) + tail);
    var d := t + i4;
    OccursWithin(b, body, t, rest, i4);
    OccursSlice(b, rest, d);
    DataRoundTrip(boundary, data, tail);
    OccursConcat(b, d, data, Delimiter(boundary) + tail);
  }
}
