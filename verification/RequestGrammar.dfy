/** What the line readers accept, without reference to how they search. */
module RequestGrammar {
  import opened Basics
  import opened CString
  import opened RequestHead
  import opened HeadMeaning
  import Multipart

  // The request line (RFC 9112, section 3).

  predicate NoBlank(s: string) {
    forall k | 0 <= k < |s| :: s[k] !in BLANK
  }

  predicate AllBlank(s: string) {
    forall k | 0 <= k < |s| :: s[k] in BLANK
  }

  /** Where the path of a target starts: in an absolute http URI, at the first
      slash after the scheme's two. */
  function PathFrom(target: string): (u: nat)
    ensures u <= |target|
  {
    if PrefixNoCase(target, "http://") then FirstOf(target, 7, {'/'}) else 0
  }

  /** In "http://host/path", in any case, it is the path behind the host; in any other target
      the whole of it. */
  lemma PathFromIs(scheme: string, host: string, path: string)
    requires EqNoCase(scheme, "http://") && '/' !in host && (path != "" ==> path[0] == '/')
    ensures PathFrom(scheme + (host + path)) == |scheme| + |host|
    ensures !PrefixNoCase(path, "http://") ==> PathFrom(path) == 0
  {
    var s := scheme + (host + path);
    assert s[..7] == scheme;
    assert forall j | 7 <= j < 7 + |host| :: s[j] == host[j - 7];
    assert path != "" ==> s[7 + |host|] == path[0];
    FirstOfUnique(s, 7, {'/'}, 7 + |host|);
  }

  /** `s` is a method, blanks, a target with a path, one blank, and the version. */
  predicate RequestLineForm(s: string, name: string, sep: string, target: string, gap: char, version: string) {
    && s == name + sep + target + [gap] + version
    && (EqNoCase(name, "GET") || EqNoCase(name, "POST"))
    && sep != [] && AllBlank(sep)
    && NoBlank(target) && gap in BLANK
    && EqNoCase(version, "HTTP/1.1")
    && PathFrom(target) < |target| && target[PathFrom(target)] == '/'
  }

  lemma MethodNoBlank(name: string)
    requires EqNoCase(name, "GET") || EqNoCase(name, "POST")
    ensures NoBlank(name) && name != []
  {
    assert Lower(' ') == ' ' && Lower('\t') == '\t';
    if EqNoCase(name, "GET") {
      assert forall k | 0 <= k < |name| :: Lower(name[k]) == Lower("GET"[k]);
    } else {
      assert forall k | 0 <= k < |name| :: Lower(name[k]) == Lower("POST"[k]);
    }
  }

  lemma PathStartIs(s: string, q: nat, v: nat, target: string)
    requires q <= v <= |s| && target == s[q..v]
    ensures PathStart(s, q, v) == q + PathFrom(target)
  {
    if PrefixNoCase(target, "http://") {
      var u := FirstOf(target, 7, {'/'});
      var w := s[..v];
      assert forall j | q <= j < v :: w[j] == target[j - q];
      FirstOfUnique(w, q + 7, {'/'}, q + u);
    }
  }

  /** Every line of that form is accepted, with that method, target and path. */
  lemma FormAccepted(s: string, name: string, sep: string, target: string, gap: char, version: string)
    requires RequestLineForm(s, name, sep, target, gap, version)
    ensures var p := |name|;
            var q := |name| + |sep|;
            SplitLine(s) == Target(if EqNoCase(name, "GET") then GET else POST,
                                   p, q + |target|, q + PathFrom(target))
  {
    hide EqNoCase, PrefixNoCase, PathFrom, PathStart, FirstOf, Span;
    MethodNoBlank(name);
    var p := |name|;
    var q := p + |sep|;
    var v := q + |target|;
    LinePieces(name, sep, target, gap, version);
    FirstOfUnique(s, 0, BLANK, p);
    SpanUnique(s, p + 1, BLANK, q);
    FirstOfUnique(s, q, BLANK, v);
    PathStartIs(s, q, v, target);
  }

  lemma LinePieces(name: string, sep: string, target: string, gap: char, version: string)
    ensures var s := name + sep + target + [gap] + version;
            var q := |name| + |sep|;
            var v := q + |target|;
            && |s| == v + 1 + |version|
            && (forall k | 0 <= k < |name| :: s[k] == name[k])
            && (forall k | |name| <= k < q :: s[k] == sep[k - |name|])
            && (forall k | q <= k < v :: s[k] == target[k - q])
            && s[v] == gap
            && s[..|name|] == name && s[q..v] == target && s[v + 1..] == version
  {
    var s := name + sep + target + [gap] + version;
    var s4 := name + sep + target + [gap];
    var s3 := name + sep + target;
    var s2 := name + sep;
    assert s[..|s4|] == s4 && s4[..|s3|] == s3 && s3[..|s2|] == s2;
    assert forall k | 0 <= k < |s3| :: s[k] == s3[k];
  }

  lemma SpanUnique(s: string, i: nat, accept: set<char>, k: nat)
    requires i <= k <= |s|
    requires forall j | i <= j < k :: s[j] in accept
    requires k < |s| ==> s[k] !in accept
    ensures Span(s, i, accept) == k
  {
  }

  lemma Rebuilt(s: string, p: nat, q: nat, v: nat)
    requires p <= q <= v < |s|
    ensures s == s[..p] + s[p..q] + s[q..v] + [s[v]] + s[v + 1..]
  {
    assert s[..q] == s[..p] + s[p..q] && s[..v] == s[..q] + s[q..v];
    assert s == s[..v] + [s[v]] + s[v + 1..];
  }

  /** Only lines of that form are accepted. */
  lemma AcceptedHasForm(s: string)
    requires SplitLine(s).Target?
    ensures var x := SplitLine(s);
            exists q :: x.p < q <= x.v && RequestLineForm(s, s[..x.p], s[x.p..q], s[q..x.v], s[x.v], s[x.v + 1..])
                        && x.u == q + PathFrom(s[q..x.v])
  {
    hide EqNoCase, PrefixNoCase, PathFrom, PathStart, FirstOf, Span;
    var x := SplitLine(s);
    var q := Span(s, x.p + 1, BLANK);
    PathStartIs(s, q, x.v, s[q..x.v]);
    Rebuilt(s, x.p, q, x.v);
    assert s[q..x.v][x.u - q] == s[x.u];
    assert RequestLineForm(s, s[..x.p], s[x.p..q], s[q..x.v], s[x.v], s[x.v + 1..]);
  }

  /** The parser accepts exactly the request lines. */
  lemma AcceptsExactly(s: string)
    ensures SplitLine(s).Target?
            <==> exists name, sep, target, gap, version :: RequestLineForm(s, name, sep, target, gap, version)
  {
    hide RequestLineForm, SplitLine;
    if SplitLine(s).Target? {
      AcceptedHasForm(s);
    }
    if name, sep, target, gap, version :| RequestLineForm(s, name, sep, target, gap, version) {
      FormAccepted(s, name, sep, target, gap, version);
    }
  }

  // Header fields.

  /** The header lines `fs` follow one another in `raw` from `i` on, none of them
      empty, and the empty line after them ends at `next`. */
  predicate HeaderBlock(raw: string, i: nat, fs: seq<string>, next: nat)
    requires i <= |raw|
    decreases |fs|
  {
    LineAt(raw, i)
    && (if fs == [] then LineText(raw, i) == "" && next == NextLine(raw, i)
        else fs[0] == LineText(raw, i) != "" && HeaderBlock(raw, NextLine(raw, i), fs[1..], next))
  }

  /** Some line of `fs` says `f`. */
  predicate Says(fs: seq<string>, f: Field) {
    exists k | 0 <= k < |fs| :: FieldOf(fs[k]) == f
  }

  /** `n` is the value of the last Content-Length line, or `before` if there is none. */
  predicate LastLength(fs: seq<string>, before: int, n: int) {
    if fs == [] then n == before
    else if FieldOf(fs[|fs| - 1]).Length? then FieldOf(fs[|fs| - 1]) == Length(n)
    else LastLength(fs[..|fs| - 1], before, n)
  }

  lemma {:induction false} LastLengthCons(s: string, fs: seq<string>, before: int, n: int)
    requires LastLength(fs, if FieldOf(s).Length? then FieldOf(s).n else before, n)
    ensures LastLength([s] + fs, before, n)
  {
    hide FieldOf;
    if fs == [] {
      assert ([s] + fs)[..0] == [];
    } else {
      var all := [s] + fs;
      assert all[|all| - 1] == fs[|fs| - 1];
      assert all[..|all| - 1] == [s] + fs[..|fs| - 1];
      if !FieldOf(fs[|fs| - 1]).Length? {
        LastLengthCons(s, fs[..|fs| - 1], before, n);
      }
    }
  }

  /** The value of the last Host line, as text, if there is one. */
  predicate LastHost(fs: seq<string>, before: Option<string>, h: Option<string>) {
    if fs == [] then h == before
    else
      var s := fs[|fs| - 1];
      if FieldOf(s).HostAt? then h == Some(s[FieldOf(s).k..])
      else LastHost(fs[..|fs| - 1], before, h)
  }

  lemma {:induction false} LastHostCons(s: string, fs: seq<string>, before: Option<string>, h: Option<string>)
    requires LastHost(fs, if FieldOf(s).HostAt? then Some(s[FieldOf(s).k..]) else before, h)
    ensures LastHost([s] + fs, before, h)
  {
    hide FieldOf;
    if fs == [] {
      assert ([s] + fs)[..0] == [];
    } else {
      var all := [s] + fs;
      assert all[|all| - 1] == fs[|fs| - 1];
      assert all[..|all| - 1] == [s] + fs[..|fs| - 1];
      if !FieldOf(fs[|fs| - 1]).HostAt? {
        LastHostCons(s, fs[..|fs| - 1], before, h);
      }
    }
  }

  /** `b` is the boundary of the last multipart line that states one, or `before`. */
  predicate LastBoundary(fs: seq<string>, before: string, b: string) {
    if fs == [] then b == before
    else if FieldOf(fs[|fs| - 1]).Boundary? then b == FieldOf(fs[|fs| - 1]).mark
    else LastBoundary(fs[..|fs| - 1], before, b)
  }

  lemma {:induction false} LastBoundaryCons(s: string, fs: seq<string>, before: string, b: string)
    requires LastBoundary(fs, if FieldOf(s).Boundary? then FieldOf(s).mark else before, b)
    ensures LastBoundary([s] + fs, before, b)
  {
    hide FieldOf;
    if fs == [] {
      assert ([s] + fs)[..0] == [];
    } else {
      var all := [s] + fs;
      assert all[|all| - 1] == fs[|fs| - 1];
      assert all[..|all| - 1] == [s] + fs[..|fs| - 1];
      if !FieldOf(fs[|fs| - 1]).Boundary? {
        LastBoundaryCons(s, fs[..|fs| - 1], before, b);
      }
    }
  }

  function HostText(h: Option<Held>): Option<string> {
    if h.None? then None else Some(h.value.text)
  }

  predicate SaysFormData(fs: seq<string>) {
    exists k | 0 <= k < |fs| :: FieldOf(fs[k]).FormData? || FieldOf(fs[k]).Boundary?
  }

  /** A head that ends: its fields are those its header lines state, whichever way
      they are ordered, and a body follows exactly when a length other than 0 is stated. */
  lemma {:induction false} HeaderFields(raw: string, i: nat, req: Request) returns (fs: seq<string>)
    requires i <= |raw| && req.phase == Header
    requires var o := ReadHead(raw, i, req).outcome; o == Complete || o == HasBody
    ensures var h := ReadHead(raw, i, req);
            && HeaderBlock(raw, i, fs, h.next)
            && h.req.url == req.url && h.req.meth == req.meth
            && (h.req.linger <==> req.linger || Says(fs, KeepAlive))
            && (h.req.cookie <==> req.cookie || Says(fs, LoginCookie))
            && (h.req.multipart <==> req.multipart || SaysFormData(fs))
            && LastLength(fs, req.contentLength, h.req.contentLength)
            && LastHost(fs, HostText(req.host), HostText(h.req.host))
            && LastBoundary(fs, req.boundary, h.req.boundary)
            && (h.outcome == HasBody <==> h.req.contentLength != 0)
    decreases |raw| - i
  {
    hide FieldOf, LineAt, LineText, LastLength, LastHost, LastBoundary;
    var s := LineText(raw, i);
    var f := FieldOf(s);
    if f == Blank {
      fs := [];
      EmptyLast(req.contentLength, HostText(req.host), req.boundary);
    } else {
      var r := ReadLine(req, i, s);
      var rest := HeaderFields(raw, NextLine(raw, i), r.req);
      fs := [s] + rest;
      assert fs[1..] == rest;
      var h := ReadHead(raw, i, req);
      SaysCons(s, rest, KeepAlive);
      SaysCons(s, rest, LoginCookie);
      SaysFormDataCons(s, rest);
      LastLengthCons(s, rest, req.contentLength, h.req.contentLength);
      LastHostCons(s, rest, HostText(req.host), HostText(h.req.host));
      LastBoundaryCons(s, rest, req.boundary, h.req.boundary);
    }
  }

  lemma EmptyLast(n: int, h: Option<string>, b: string)
    ensures LastLength([], n, n) && LastHost([], h, h) && LastBoundary([], b, b)
  {
  }

  lemma SaysCons(s: string, fs: seq<string>, f: Field)
    ensures Says([s] + fs, f) <==> FieldOf(s) == f || Says(fs, f)
  {
    hide FieldOf;
    var all := [s] + fs;
    assert all[0] == s;
    assert forall k | 0 <= k < |fs| :: all[k + 1] == fs[k];
    if k :| 0 <= k < |all| && FieldOf(all[k]) == f {
      assert k > 0 ==> all[k] == fs[k - 1];
    }
  }

  lemma SaysFormDataCons(s: string, fs: seq<string>)
    ensures SaysFormData([s] + fs) <==> FieldOf(s).FormData? || FieldOf(s).Boundary? || SaysFormData(fs)
  {
    hide FieldOf;
    var all := [s] + fs;
    assert all[0] == s;
    assert forall k | 0 <= k < |fs| :: all[k + 1] == fs[k];
    if k :| 0 <= k < |all| && (FieldOf(all[k]).FormData? || FieldOf(all[k]).Boundary?) {
      assert k > 0 ==> all[k] == fs[k - 1];
    }
  }
}
