/** What a header line states, by its form: a name in any case, blanks, and a value.  The
    reader of header lines is proved to see exactly that. */
module HeaderForms {
  import opened Basics
  import opened CString
  import opened RequestHead
  import opened HeadMeaning
  import opened RequestGrammar
  import opened Response
  import opened Replies

  /** `s` is the header `name` in upper or lower case, written `n`, with the value `v`
      behind the blanks `b`. */
  predicate HeaderLine(s: string, name: string, n: string, b: string, v: string) {
    s == n + b + v && EqNoCase(n, name) && AllBlank(b) && (v == "" || v[0] !in BLANK)
  }

  ghost predicate KeepAliveLine(s: string) {
    exists n, b, v :: HeaderLine(s, "Connection:", n, b, v) && EqNoCase(v, "keep-alive")
  }

  ghost predicate LengthIs(s: string, length: int) {
    exists n, b, v :: HeaderLine(s, "Content-Length:", n, b, v) && length == ToInt(Atol(v))
  }

  ghost predicate HostIs(s: string, host: string) {
    exists n, b :: HeaderLine(s, "Host:", n, b, host)
  }

  ghost predicate LoginLine(s: string) {
    exists n, b, v, k: nat :: HeaderLine(s, "Cookie:", n, b, v) && OccursAt(v, "is_login=true", k)
  }

  ghost predicate MultipartLine(s: string) {
    exists n, b, v :: HeaderLine(s, "Content-Type:", n, b, v) && PrefixNoCase(v, "multipart/form-data")
  }

  /** The first "boundary=" of `v` is at `k`, and `mark` is all that follows it. */
  predicate Marks(v: string, k: nat, mark: string) {
    && OccursAt(v, "boundary=", k) && v[k + 9..] == mark
    && forall j: nat | j < k :: !OccursAt(v, "boundary=", j)
  }

  ghost predicate BoundaryIs(s: string, mark: string) {
    exists n, b, v, k ::
      HeaderLine(s, "Content-Type:", n, b, v) && PrefixNoCase(v, "multipart/form-data") && Marks(v, k, mark)
  }

  lemma HeaderCut(s: string, name: string, n: string, b: string, v: string)
    requires HeaderLine(s, name, n, b, v)
    ensures PrefixNoCase(s, name) && Span(s, |name|, BLANK) == |s| - |v| && s[|s| - |v|..] == v
  {
    hide EqNoCase;
    EqLength(n, name);
    assert s[..|name|] == n;
    assert forall k | |n| <= k < |n| + |b| :: s[k] == b[k - |n|];
    assert v != "" ==> s[|n| + |b|] == v[0];
    SpanUnique(s, |name|, BLANK, |n| + |b|);
  }

  lemma EqLength(a: string, b: string)
    requires EqNoCase(a, b)
    ensures |a| == |b|
  {
  }

  lemma HeaderSplit(s: string, name: string)
    requires PrefixNoCase(s, name)
    ensures var k := Span(s, |name|, BLANK); HeaderLine(s, name, s[..|name|], s[|name|..k], s[k..])
  {
    hide EqNoCase, Span;
    var k := Span(s, |name|, BLANK);
    assert s == s[..|name|] + s[|name|..k] + s[k..];
  }

  /** No line has two names. */
  lemma NotBoth(s: string, a: string, b: string, k: nat)
    requires PrefixNoCase(s, a) && k < |a| && k < |b| && Lower(a[k]) != Lower(b[k])
    ensures !PrefixNoCase(s, b)
  {
    assert s[..|a|][k] == s[k];
    if |b| <= |s| {
      assert s[..|b|][k] == s[k];
    }
  }

  /** Which names a line has, and what `FieldOf` makes of it. */
  lemma NamesDiffer(s: string)
    ensures PrefixNoCase(s, "Content-Length:") ==> !PrefixNoCase(s, "Connection:")
    ensures PrefixNoCase(s, "Host:") ==> !PrefixNoCase(s, "Connection:") && !PrefixNoCase(s, "Content-Length:")
    ensures PrefixNoCase(s, "Cookie:") ==>
              !PrefixNoCase(s, "Connection:") && !PrefixNoCase(s, "Content-Length:") && !PrefixNoCase(s, "Host:")
    ensures PrefixNoCase(s, "Content-Type:") ==>
              && !PrefixNoCase(s, "Connection:") && !PrefixNoCase(s, "Content-Length:") && !PrefixNoCase(s, "Host:")
              && !PrefixNoCase(s, "Cookie:")
  {
    hide PrefixNoCase;
    if PrefixNoCase(s, "Content-Length:") { NotBoth(s, "Content-Length:", "Connection:", 3); }
    if PrefixNoCase(s, "Host:") {
      NotBoth(s, "Host:", "Connection:", 0);
      NotBoth(s, "Host:", "Content-Length:", 0);
    }
    if PrefixNoCase(s, "Cookie:") {
      NotBoth(s, "Cookie:", "Connection:", 2);
      NotBoth(s, "Cookie:", "Content-Length:", 2);
      NotBoth(s, "Cookie:", "Host:", 0);
    }
    if PrefixNoCase(s, "Content-Type:") {
      NotBoth(s, "Content-Type:", "Connection:", 3);
      NotBoth(s, "Content-Type:", "Content-Length:", 8);
      NotBoth(s, "Content-Type:", "Host:", 0);
      NotBoth(s, "Content-Type:", "Cookie:", 2);
    }
  }

  lemma KeepAliveExactly(s: string)
    ensures FieldOf(s) == KeepAlive <==> KeepAliveLine(s)
    ensures PrefixNoCase(s, "Connection:") && !KeepAliveLine(s) ==> FieldOf(s) == Ignored
  {
    hide PrefixNoCase, EqNoCase, Atol, ToInt, Find, TypeField;
    if PrefixNoCase(s, "Connection:") {
      HeaderSplit(s, "Connection:");
    }
    if n, b, v :| HeaderLine(s, "Connection:", n, b, v) && EqNoCase(v, "keep-alive") {
      HeaderCut(s, "Connection:", n, b, v);
    }
  }

  lemma LengthExactly(s: string, length: int)
    ensures FieldOf(s) == Length(length) <==> LengthIs(s, length)
    ensures FieldOf(s).Length? <==> PrefixNoCase(s, "Content-Length:")
  {
    hide PrefixNoCase, EqNoCase, Atol, ToInt, Find, TypeField;
    NamesDiffer(s);
    if PrefixNoCase(s, "Content-Length:") {
      HeaderSplit(s, "Content-Length:");
    }
    if n, b, v :| HeaderLine(s, "Content-Length:", n, b, v) && length == ToInt(Atol(v)) {
      HeaderCut(s, "Content-Length:", n, b, v);
    }
  }

  lemma HostExactly(s: string, host: string)
    ensures FieldOf(s).HostAt? && s[FieldOf(s).k..] == host <==> HostIs(s, host)
    ensures FieldOf(s).HostAt? <==> PrefixNoCase(s, "Host:")
  {
    hide PrefixNoCase, EqNoCase, Atol, ToInt, Find, TypeField;
    NamesDiffer(s);
    if PrefixNoCase(s, "Host:") {
      HeaderSplit(s, "Host:");
    }
    if n, b :| HeaderLine(s, "Host:", n, b, host) {
      HeaderCut(s, "Host:", n, b, host);
    }
  }

  lemma LoginExactly(s: string)
    ensures FieldOf(s) == LoginCookie <==> LoginLine(s)
    ensures PrefixNoCase(s, "Cookie:") && !LoginLine(s) ==> FieldOf(s) == Ignored
  {
    hide PrefixNoCase, EqNoCase, Atol, ToInt, FindFrom, TypeField, OccursAt;
    NamesDiffer(s);
    if PrefixNoCase(s, "Cookie:") {
      HeaderSplit(s, "Cookie:");
      FindFromIsFirst(s[Span(s, 7, BLANK)..], "is_login=true", 0);
    }
    if n, b, v, k: nat :| HeaderLine(s, "Cookie:", n, b, v) && OccursAt(v, "is_login=true", k) {
      HeaderCut(s, "Cookie:", n, b, v);
      FindFromIsFirst(v, "is_login=true", 0);
    }
  }

  /** The value of a Content-Type line. */
  lemma TypeExactly(v: string)
    ensures TypeField(v) != Ignored <==> PrefixNoCase(v, "multipart/form-data")
    ensures forall k: nat, mark | Marks(v, k, mark) && PrefixNoCase(v, "multipart/form-data") ::
              TypeField(v) == Boundary(mark)
    ensures TypeField(v).Boundary? ==> exists k: nat :: Marks(v, k, TypeField(v).mark)
  {
    hide PrefixNoCase, FindFrom, OccursAt;
    FindFromIsFirst(v, "boundary=", 0);
    forall k: nat, mark | Marks(v, k, mark) && PrefixNoCase(v, "multipart/form-data")
      ensures TypeField(v) == Boundary(mark)
    {
      FindFromUnique(v, "boundary=", 0, k);
    }
    if TypeField(v).Boundary? {
      assert Marks(v, Find(v, "boundary=").value, TypeField(v).mark);
    }
  }

  lemma MultipartExactly(s: string)
    ensures FieldOf(s).FormData? || FieldOf(s).Boundary? <==> MultipartLine(s)
    ensures PrefixNoCase(s, "Content-Type:") && !MultipartLine(s) ==> FieldOf(s) == Ignored
  {
    hide PrefixNoCase, EqNoCase, Atol, ToInt, Find, TypeField;
    NamesDiffer(s);
    if PrefixNoCase(s, "Content-Type:") {
      HeaderSplit(s, "Content-Type:");
      TypeExactly(s[Span(s, 13, BLANK)..]);
    }
    if n, b, v :| HeaderLine(s, "Content-Type:", n, b, v) && PrefixNoCase(v, "multipart/form-data") {
      HeaderCut(s, "Content-Type:", n, b, v);
      TypeExactly(v);
    }
  }

  lemma BoundaryExactly(s: string, mark: string)
    ensures FieldOf(s) == Boundary(mark) <==> BoundaryIs(s, mark)
  {
    hide PrefixNoCase, EqNoCase, Atol, ToInt, Find, TypeField, Marks;
    NamesDiffer(s);
    if PrefixNoCase(s, "Content-Type:") {
      HeaderSplit(s, "Content-Type:");
      TypeExactly(s[Span(s, 13, BLANK)..]);
    }
    if n, b, v, k :|
      HeaderLine(s, "Content-Type:", n, b, v) && PrefixNoCase(v, "multipart/form-data") && Marks(v, k, mark)
    {
      HeaderCut(s, "Content-Type:", n, b, v);
      TypeExactly(v);
    }
  }

  /** A line that is not empty and has none of the five names states nothing. */
  lemma OthersIgnored(s: string)
    requires s != "" && !PrefixNoCase(s, "Connection:") && !PrefixNoCase(s, "Content-Length:")
    requires !PrefixNoCase(s, "Host:") && !PrefixNoCase(s, "Cookie:") && !PrefixNoCase(s, "Content-Type:")
    ensures FieldOf(s) == Ignored
  {
    hide PrefixNoCase;
  }

  // Numbers.

  lemma {:induction false} DigitsStop(x: string, rest: string, acc: nat)
    requires AllDigits(x) && (rest == "" || !IsDigit(rest[0]))
    ensures DigitsFrom(x + rest, acc) == DigitsFrom(x, acc)
  {
    if x != "" {
      assert (x + rest)[1..] == x[1..] + rest;
      DigitsStop(x[1..], rest, 10 * acc + (x[0] as int - '0' as int));
    } else {
      assert x + rest == rest;
    }
  }

  predicate Zeros(z: string) {
    forall i | 0 <= i < |z| :: z[i] == '0'
  }

  lemma {:induction false} ZerosSkipped(z: string, x: string)
    requires Zeros(z)
    ensures DigitsFrom(z + x, 0) == DigitsFrom(x, 0)
  {
    if z != "" {
      assert (z + x)[1..] == z[1..] + x;
      ZerosSkipped(z[1..], x);
    } else {
      assert z + x == x;
    }
  }

  /** `atol`: white space, a sign, digits, and then anything but a digit. */
  lemma NumberRead(w: string, sign: string, z: string, n: nat, rest: string)
    requires (forall i | 0 <= i < |w| :: w[i] in " \t\n\r") && sign in ["", "+", "-"] && Zeros(z)
    requires rest == "" || !IsDigit(rest[0])
    ensures var v: int := if sign == "-" then -(n as int) else n as int;
            Atol(w + (sign + (z + Decimal(n) + rest)))
            == if v > 0x7fff_ffff_ffff_ffff then 0x7fff_ffff_ffff_ffff
               else if v < -0x8000_0000_0000_0000 then -0x8000_0000_0000_0000 else v
  {
    hide Decimal;
    var x := z + Decimal(n) + rest;
    var d := sign + x;
    DecimalRead(n);
    DigitsStop(z + Decimal(n), rest, 0);
    ZerosSkipped(z, Decimal(n));
    assert (z + Decimal(n))[0] == x[0] && IsDigit(x[0]);
    assert d[0] == if sign == "" then x[0] else sign[0];
    SpanUnique(w + d, 0, SPACE, |w|);
    assert (w + d)[|w|..] == d;
    if sign == "" {
      assert d == x;
    } else {
      assert d[1..] == x;
    }
  }

  // A whole head.

  /** `fs[k]` is the last line with this name. */
  predicate LastNamed(fs: seq<string>, name: string, k: int) {
    0 <= k < |fs| && PrefixNoCase(fs[k], name) && forall j | k < j < |fs| :: !PrefixNoCase(fs[j], name)
  }

  predicate NoneNamed(fs: seq<string>, name: string) {
    forall j | 0 <= j < |fs| :: !PrefixNoCase(fs[j], name)
  }

  lemma {:induction false} LastLengthSays(fs: seq<string>, before: int, n: int)
    requires LastLength(fs, before, n)
    ensures forall k | LastNamed(fs, "Content-Length:", k) :: LengthIs(fs[k], n)
    ensures NoneNamed(fs, "Content-Length:") ==> n == before
  {
    hide FieldOf, PrefixNoCase, LengthIs;
    if fs != [] {
      var s, rest := fs[|fs| - 1], fs[..|fs| - 1];
      LengthExactly(s, n);
      if !PrefixNoCase(s, "Content-Length:") {
        LastLengthSays(rest, before, n);
        forall k | LastNamed(fs, "Content-Length:", k) ensures LengthIs(fs[k], n) {
          assert LastNamed(rest, "Content-Length:", k);
        }
      }
    }
  }

  lemma {:induction false} LastHostSays(fs: seq<string>, before: Option<string>, h: Option<string>)
    requires LastHost(fs, before, h)
    ensures forall k | LastNamed(fs, "Host:", k) :: h.Some? && HostIs(fs[k], h.value)
    ensures NoneNamed(fs, "Host:") ==> h == before
  {
    hide FieldOf, PrefixNoCase, HostIs;
    if fs != [] {
      var s, rest := fs[|fs| - 1], fs[..|fs| - 1];
      HostExactly(s, if h.Some? then h.value else "");
      if !PrefixNoCase(s, "Host:") {
        LastHostSays(rest, before, h);
        forall k | LastNamed(fs, "Host:", k) ensures h.Some? && HostIs(fs[k], h.value) {
          assert LastNamed(rest, "Host:", k);
        }
      }
    }
  }

  /** `fs[k]` is the last line that states a boundary, and it states `mark`. */
  ghost predicate LastMark(fs: seq<string>, k: int, mark: string) {
    0 <= k < |fs| && BoundaryIs(fs[k], mark) && forall j, m | k < j < |fs| :: !BoundaryIs(fs[j], m)
  }

  lemma {:induction false} LastBoundarySays(fs: seq<string>, before: string, b: string)
    requires LastBoundary(fs, before, b)
    ensures forall k, mark | LastMark(fs, k, mark) :: b == mark
    ensures (forall j, m | 0 <= j < |fs| :: !BoundaryIs(fs[j], m)) ==> b == before
  {
    hide FieldOf, BoundaryIs;
    if fs != [] {
      var s, rest := fs[|fs| - 1], fs[..|fs| - 1];
      forall m ensures FieldOf(s) == Boundary(m) <==> BoundaryIs(s, m) {
        BoundaryExactly(s, m);
      }
      if FieldOf(s).Boundary? {
        assert BoundaryIs(s, b);
      } else {
        LastBoundarySays(rest, before, b);
        forall k, mark | LastMark(fs, k, mark) ensures b == mark {
          assert LastMark(rest, k, mark);
        }
      }
    }
  }

  /** Its boundaries are shorter than 100 bytes: a longer one ends the reading. */
  lemma {:induction false} MarksShort(raw: string, i: nat, req: Request, fs: seq<string>, next: nat)
    requires i <= |raw| && req.phase == Header && HeaderBlock(raw, i, fs, next)
    ensures ReadHead(raw, i, req).outcome == Overlong
            <==> exists k, mark :: 0 <= k < |fs| && BoundaryIs(fs[k], mark) && |mark| >= 100
    decreases |fs|
  {
    hide FieldOf, LineAt, LineText, NextLine, BoundaryIs;
    if fs != [] {
      var s, rest := fs[0], fs[1..];
      forall m ensures FieldOf(s) == Boundary(m) <==> BoundaryIs(s, m) {
        BoundaryExactly(s, m);
      }
      var r := ReadLine(req, i, s);
      if r.outcome == Incomplete {
        MarksShort(raw, NextLine(raw, i), r.req, rest, next);
        assert forall k | 0 <= k < |rest| :: rest[k] == fs[k + 1];
        if k, mark :| 0 <= k < |fs| && BoundaryIs(fs[k], mark) && |mark| >= 100 {
          assert k > 0 && rest[k - 1] == fs[k];
        }
      } else {
        assert BoundaryIs(fs[0], FieldOf(s).mark);
      }
    }
  }

  /** A head that ends has the fields that the forms of its header lines state. */
  lemma HeadStates(raw: string, i: nat, req: Request) returns (fs: seq<string>)
    requires i <= |raw| && req.phase == Header
    requires var o := ReadHead(raw, i, req).outcome; o == Complete || o == HasBody
    ensures var h := ReadHead(raw, i, req);
            && HeaderBlock(raw, i, fs, h.next)
            && (h.req.linger <==> req.linger || exists k :: 0 <= k < |fs| && KeepAliveLine(fs[k]))
            && (h.req.cookie <==> req.cookie || exists k :: 0 <= k < |fs| && LoginLine(fs[k]))
            && (h.req.multipart <==> req.multipart || exists k :: 0 <= k < |fs| && MultipartLine(fs[k]))
            && (forall k | LastNamed(fs, "Content-Length:", k) :: LengthIs(fs[k], h.req.contentLength))
            && (NoneNamed(fs, "Content-Length:") ==> h.req.contentLength == req.contentLength)
            && (forall k | LastNamed(fs, "Host:", k) ::
                  h.req.host.Some? && HostIs(fs[k], h.req.host.value.text))
            && (forall k, mark | LastMark(fs, k, mark) :: h.req.boundary == mark)
            && (h.outcome == HasBody <==> h.req.contentLength != 0)
  {
    hide FieldOf, ReadHead, HeaderBlock, LastLength, LastHost, LastBoundary, PrefixNoCase, LastMark, LastNamed,
         NoneNamed, KeepAliveLine, LoginLine, MultipartLine, HostIs, LengthIs;
    fs := HeaderFields(raw, i, req);
    var h := ReadHead(raw, i, req);
    LastLengthSays(fs, req.contentLength, h.req.contentLength);
    LastHostSays(fs, HostText(req.host), HostText(h.req.host));
    LastBoundarySays(fs, req.boundary, h.req.boundary);
    forall s ensures FieldOf(s) == KeepAlive <==> KeepAliveLine(s) { KeepAliveExactly(s); }
    forall s ensures FieldOf(s) == LoginCookie <==> LoginLine(s) { LoginExactly(s); }
    forall s ensures FieldOf(s).FormData? || FieldOf(s).Boundary? <==> MultipartLine(s) { MultipartExactly(s); }
  }
}
