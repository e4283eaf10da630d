/** The C library string functions the server calls, on sequences of bytes.

    A buffer is a `string` whose elements stand for bytes.  A C string is named
    by its buffer and the offset of its first byte; its value runs up to, not
    including, the first NUL.  The end of the modelled buffer also ends it: the
    real array is zero-filled past the bytes received. */
module CString {
  import opened Basics

  const NUL: char := '\0'
  const CR: char := '\r'
  const LF: char := '\n'
  const CRLF: string := "\r\n"
  const BLANK: set<char> := {' ', '\t'}

  /** `strpbrk` and `strchr` from offset `i`: the offset of the first byte of
      `accept`, or the length. */
  function FirstOf(s: string, i: nat, accept: set<char>): (k: nat)
    requires i <= |s|
    ensures i <= k <= |s|
    ensures forall j | i <= j < k :: s[j] !in accept
    ensures k < |s| ==> s[k] in accept
    decreases |s| - i
  {
    if i == |s| || s[i] in accept then i else FirstOf(s, i + 1, accept)
  }

  /** `strspn` from offset `i`: the offset of the first byte outside `accept`, or the length. */
  function Span(s: string, i: nat, accept: set<char>): (k: nat)
    requires i <= |s|
    ensures i <= k <= |s|
    ensures forall j | i <= j < k :: s[j] in accept
    ensures k < |s| ==> s[k] !in accept
    decreases |s| - i
  {
    if i == |s| || s[i] !in accept then i else Span(s, i + 1, accept)
  }

  /** The offset of the NUL that ends the C string at `i`. */
  function StrEnd(b: string, i: nat): (e: nat)
    requires i <= |b|
    ensures i <= e <= |b|
    ensures forall k | i <= k < e :: b[k] != NUL
    ensures e < |b| ==> b[e] == NUL
  {
    FirstOf(b, i, {NUL})
  }

  /** The value of the C string at `i`. */
  function CStr(b: string, i: nat): (s: string)
    requires i <= |b|
    ensures NUL !in s
    ensures i + |s| <= |b| && s == b[i..i + |s|]
    ensures i + |s| < |b| ==> b[i + |s|] == NUL
  {
    b[i..StrEnd(b, i)]
  }

  /** The bytes of `s` up to its first NUL. */
  function Cut(s: string): (r: string)
    ensures NUL !in r && r <= s
    ensures |r| < |s| ==> s[|r|] == NUL
  {
    CStr(s, 0)
  }

  function Lower(c: char): char {
    if 'A' <= c <= 'Z' then ((c as int) + 32) as char else c
  }

  /** Two bytes are the same to `strcasecmp` exactly if they are, or are the same letter. */
  lemma SameLetter(c: char, d: char)
    ensures Lower(c) == Lower(d)
            <==> || c == d || ('a' <= d <= 'z' && c as int == d as int - 32)
                 || ('a' <= c <= 'z' && d as int == c as int - 32)
  {
  }

  /** `strcasecmp(a, b) == 0`. */
  predicate EqNoCase(a: string, b: string) {
    |a| == |b| && forall i | 0 <= i < |a| :: Lower(a[i]) == Lower(b[i])
  }

  /** `strncasecmp(s, pre, strlen(pre)) == 0`. */
  predicate PrefixNoCase(s: string, pre: string): (r: bool)
    ensures r ==> |pre| <= |s|
  {
    |pre| <= |s| && EqNoCase(s[..|pre|], pre)
  }

  /** `memcmp(s + k, pat, n) == 0`. */
  predicate Matches(s: string, k: nat, pat: string, n: nat)
    requires k + n <= |s| && n <= |pat|
  {
    n == 0 || (Matches(s, k, pat, n - 1) && s[k + n - 1] == pat[n - 1])
  }

  predicate OccursAt(s: string, pat: string, k: nat) {
    k + |pat| <= |s| && Matches(s, k, pat, |pat|)
  }

  /** `strstr`: the first occurrence of `pat` in `s` at or after offset `i`. */
  function FindFrom(s: string, pat: string, i: nat): (r: Option<nat>)
    requires i <= |s|
    ensures r.Some? ==> i <= r.value && r.value + |pat| <= |s|
    decreases |s| - i
  {
    if OccursAt(s, pat, i) then Some(i)
    else if i == |s| then None
    else FindFrom(s, pat, i + 1)
  }

  function Find(s: string, pat: string): (r: Option<nat>)
    ensures r.Some? ==> r.value + |pat| <= |s|
  {
    FindFrom(s, pat, 0)
  }

  /** `FindFrom` returns the first occurrence, and nothing only when there is none. */
  lemma {:induction false} FindFromIsFirst(s: string, pat: string, i: nat)
    requires i <= |s|
    ensures var r := FindFrom(s, pat, i);
            && (r.Some? ==> OccursAt(s, pat, r.value) && forall k | i <= k < r.value :: !OccursAt(s, pat, k))
            && (r.None? ==> forall k | i <= k :: !OccursAt(s, pat, k))
    decreases |s| - i
  {
    if !OccursAt(s, pat, i) && i < |s| {
      FindFromIsFirst(s, pat, i + 1);
    }
  }

  predicate IsDigit(c: char) { '0' <= c <= '9' }

  /** The value of the leading decimal digits of `s`, continuing from `acc`. */
  function DigitsFrom(s: string, acc: nat): nat {
    if s == [] || !IsDigit(s[0]) then acc
    else DigitsFrom(s[1..], 10 * acc + (s[0] as int - '0' as int))
  }

  const SPACE: set<char> := {' ', '\t', '\n', '\U{000b}', '\U{000c}', '\r'}

  /** `atol`, with 64-bit `long` values that saturate as `strtol` does. */
  function Atol(s: string): int {
    var d := s[Span(s, 0, SPACE)..];
    var v := if d != [] && d[0] == '-' then -(DigitsFrom(d[1..], 0) as int)
             else if d != [] && d[0] == '+' then DigitsFrom(d[1..], 0)
             else DigitsFrom(d, 0);
    if v > 0x7fff_ffff_ffff_ffff then 0x7fff_ffff_ffff_ffff
    else if v < -0x8000_0000_0000_0000 then -0x8000_0000_0000_0000
    else v
  }

  /** Assigning a `long` to an `int`: the low 32 bits, two's complement. */
  function ToInt(v: int): (r: int)
    ensures -0x8000_0000 <= r < 0x8000_0000
    ensures (v - r) % 0x1_0000_0000 == 0
  {
    var m := v % 0x1_0000_0000;
    if m < 0x8000_0000 then m else m - 0x1_0000_0000
  }

  /** Writing the bytes `w` at offset `i`. */
  function Overwrite(b: string, i: nat, w: string): (r: string)
    requires i + |w| <= |b|
    ensures |r| == |b|
    ensures r[..i] == b[..i] && r[i..i + |w|] == w && r[i + |w|..] == b[i + |w|..]
  {
    b[..i] + w + b[i + |w|..]
  }

  // Facts used throughout.

  lemma Assoc(a: string, b: string, c: string)
    ensures (a + b) + c == a + (b + c)
  {
  }

  /** `FirstOf` is the only offset with its three properties. */
  lemma FirstOfUnique(s: string, i: nat, accept: set<char>, k: nat)
    requires i <= k <= |s|
    requires forall j | i <= j < k :: s[j] !in accept
    requires k < |s| ==> s[k] in accept
    ensures FirstOf(s, i, accept) == k
  {
  }

  lemma CutPlain(s: string)
    requires NUL !in s
    ensures Cut(s) == s
  {
    FirstOfUnique(s, 0, {NUL}, |s|);
  }

  /** A C string that ends before `n` depends only on the bytes before `n`. */
  lemma CStrLocal(b: string, b': string, i: nat, n: nat)
    requires i <= |b| && StrEnd(b, i) < n <= |b| && n <= |b'|
    requires forall k | i <= k < n :: b[k] == b'[k]
    ensures StrEnd(b', i) == StrEnd(b, i) && CStr(b', i) == CStr(b, i)
  {
    var e := StrEnd(b, i);
    FirstOfUnique(b', i, {NUL}, e);
    var s, s' := b[i..e], b'[i..e];
    assert forall j | 0 <= j < e - i :: s[j] == b[i + j] && s'[j] == b'[i + j];
    assert s == s';
  }

  lemma {:induction false} MatchesEach(s: string, k: nat, pat: string, n: nat)
    requires k + n <= |s| && n <= |pat|
    ensures Matches(s, k, pat, n) <==> forall j | 0 <= j < n :: s[k + j] == pat[j]
  {
    if n > 0 {
      MatchesEach(s, k, pat, n - 1);
      if Matches(s, k, pat, n) {
        forall j | 0 <= j < n ensures s[k + j] == pat[j] {
          if j < n - 1 { assert s[k + j] == pat[j]; }
        }
      }
    }
  }

  /** An occurrence agrees at every byte. */
  lemma OccursEach(s: string, pat: string, k: nat)
    requires k + |pat| <= |s|
    ensures OccursAt(s, pat, k) <==> forall j | 0 <= j < |pat| :: s[k + j] == pat[j]
  {
    MatchesEach(s, k, pat, |pat|);
  }

  lemma OccursSelf(s: string)
    ensures OccursAt(s, s, 0)
  {
    OccursEach(s, s, 0);
  }

  /** One wrong byte rules an occurrence out. */
  lemma Mismatch(s: string, pat: string, k: nat, j: nat)
    requires j < |pat| && (k + j < |s| ==> s[k + j] != pat[j])
    ensures !OccursAt(s, pat, k)
  {
    if k + |pat| <= |s| {
      OccursEach(s, pat, k);
    }
  }

  /** Occurrence at an offset is equality of the slice there. */
  lemma OccursSlice(s: string, pat: string, k: nat)
    requires k + |pat| <= |s|
    ensures OccursAt(s, pat, k) <==> s[k..k + |pat|] == pat
  {
    OccursEach(s, pat, k);
    var w := s[k..k + |pat|];
    assert forall j | 0 <= j < |pat| :: w[j] == s[k + j];
  }

  /** Where `w` occurs in `s`, the occurrences inside `w` are those of `s`. */
  lemma OccursWithin(s: string, w: string, off: nat, pat: string, k: nat)
    requires OccursAt(s, w, off) && k + |pat| <= |w|
    ensures OccursAt(s, pat, off + k) <==> OccursAt(w, pat, k)
  {
    OccursSlice(s, w, off);
    OccursSlice(s, pat, off + k);
    OccursSlice(w, pat, k);
    var v := s[off..off + |w|][k..k + |pat|];
    var v' := s[off + k..off + k + |pat|];
    assert forall j | 0 <= j < |pat| :: v[j] == v'[j];
    assert v == v';
  }

  /** Occurrences of a concatenation are occurrences of its parts, one after the other. */
  lemma OccursConcat(s: string, off: nat, a: string, b: string)
    ensures OccursAt(s, a + b, off) <==> OccursAt(s, a, off) && OccursAt(s, b, off + |a|)
  {
    if off + |a| + |b| <= |s| {
      var w := s[off..off + |a| + |b|];
      OccursSlice(s, a + b, off);
      OccursSlice(s, a, off);
      OccursSlice(s, b, off + |a|);
      assert w[..|a|] == s[off..off + |a|] && w[|a|..] == s[off + |a|..off + |a| + |b|];
      assert w == w[..|a|] + w[|a|..];
    }
  }

  /** The first occurrence is the one `FindFrom` returns. */
  lemma FindFromUnique(s: string, pat: string, i: nat, k: nat)
    requires i <= k && OccursAt(s, pat, k)
    requires forall j | i <= j < k :: !OccursAt(s, pat, j)
    ensures FindFrom(s, pat, i) == Some(k)
  {
    FindFromIsFirst(s, pat, i);
  }

  lemma FindNone(s: string, pat: string)
    requires forall k | 0 <= k <= |s| :: !OccursAt(s, pat, k)
    ensures Find(s, pat) == None
  {
    FindFromIsFirst(s, pat, 0);
  }

  /** `Overwrite`, byte by byte. */
  lemma OverwriteIs(b: string, i: nat, w: string, r: string)
    requires i + |w| <= |b| == |r|
    requires forall k | 0 <= k < |b| :: r[k] == if i <= k < i + |w| then w[k - i] else b[k]
    ensures r == Overwrite(b, i, w)
  {
    var o := b[..i] + w + b[i + |w|..];
    assert forall k | 0 <= k < |b| :: o[k] == if i <= k < i + |w| then w[k - i] else b[k];
    assert r == o;
  }

  lemma PrefixSlice(a: string, n: nat, lo: nat, hi: nat)
    requires lo <= hi <= n <= |a|
    ensures a[..n][lo..hi] == a[lo..hi]
  {
    var x, y := a[..n][lo..hi], a[lo..hi];
    assert forall j | 0 <= j < hi - lo :: x[j] == a[lo + j] && y[j] == a[lo + j];
    assert x == y;
  }

  /** Cutting a buffer at a NUL cuts no C string short. */
  lemma PrefixCStr(a: string, n: nat, i: nat)
    requires i <= n < |a| && a[n] == NUL
    ensures CStr(a[..n], i) == CStr(a, i)
  {
    var b := a[..n];
    var e := StrEnd(b, i);
    assert forall k | 0 <= k < n :: b[k] == a[k];
    FirstOfUnique(a, i, {NUL}, e);
    PrefixSlice(a, n, i, e);
  }
}
