/** The few Python `str` operations the agents and the knowledge base rely on,
    defined over `seq<char>` with Python's semantics: `isspace`, `strip`,
    `find`, the `in` operator, `split`, `join`, `replace`, `endswith` and
    `str(n)` for a natural number. Matching is leftmost and non-overlapping,
    as in CPython. */
module PyStrings {
  import opened Outcomes

  // ---------------------------------------------------------------- whitespace

  /** `c.isspace()`: the characters CPython's `str.strip()` removes. */
  predicate IsSpace(c: char) {
    var n := c as int;
    (0x09 <= n <= 0x0D) || (0x1C <= n <= 0x20) || n == 0x85 || n == 0xA0 || n == 0x1680
    || (0x2000 <= n <= 0x200A) || n == 0x2028 || n == 0x2029 || n == 0x202F
    || n == 0x205F || n == 0x3000
  }

  predicate AllSpace(s: string) {
    forall i :: 0 <= i < |s| ==> IsSpace(s[i])
  }

  /** `s.lstrip()` */
  function TrimStart(s: string): (r: string)
    ensures |r| <= |s| && r == s[|s| - |r|..]
    ensures AllSpace(s[..|s| - |r|])
    ensures r == [] || !IsSpace(r[0])
  {
    if s != [] && IsSpace(s[0]) then
      var r := TrimStart(s[1..]);
      assert s[..|s| - |r|] == [s[0]] + s[1..][..|s| - 1 - |r|];
      r
    else s
  }

  /** `s.rstrip()` */
  function TrimEnd(s: string): (r: string)
    ensures |r| <= |s| && r == s[..|r|]
    ensures AllSpace(s[|r|..])
    ensures r == [] || !IsSpace(r[|r| - 1])
  {
    if s != [] && IsSpace(s[|s| - 1]) then
      var r := TrimEnd(s[..|s| - 1]);
      assert s[|r|..] == s[..|s| - 1][|r|..] + [s[|s| - 1]];
      r
    else s
  }

  /** `r` is the slice of `s` starting at `lo`, and everything around it is whitespace. */
  predicate Framed(s: string, lo: nat, r: string) {
    lo + |r| <= |s| && s[lo..lo + |r|] == r && AllSpace(s[..lo]) && AllSpace(s[lo + |r|..])
  }

  /** `s.strip()`: a slice of `s` with only whitespace cut off either end, and
      neither end of it whitespace. */
  function Strip(s: string): (r: string)
    ensures exists lo :: Framed(s, lo, r)
    ensures r == [] || (!IsSpace(r[0]) && !IsSpace(r[|r| - 1]))
  {
    var u := TrimStart(s);
    var r := TrimEnd(u);
    TrimsFrame(s, u, r);
    assert r == [] || r[0] == u[0];
    assert Framed(s, |s| - |u|, r);
    r
  }

  /** What `lstrip` and then `rstrip` leave is framed by whitespace. */
  lemma TrimsFrame(s: string, u: string, r: string)
    requires |u| <= |s| && u == s[|s| - |u|..] && AllSpace(s[..|s| - |u|])
    requires |r| <= |u| && r == u[..|r|] && AllSpace(u[|r|..])
    ensures Framed(s, |s| - |u|, r)
  {
    var lo := |s| - |u|;
    assert s[lo..lo + |r|] == u[..|r|];
    assert s[lo + |r|..] == u[|r|..];
  }

  lemma SpaceBefore(s: string, n: nat, i: nat)
    requires n <= |s| && AllSpace(s[..n]) && i < n
    ensures IsSpace(s[i])
  {
    assert s[..n][i] == s[i];
  }

  lemma SpaceFrom(s: string, n: nat, i: nat)
    requires n <= i < |s| && AllSpace(s[n..])
    ensures IsSpace(s[i])
  {
    assert s[n..][i - n] == s[i];
  }

  lemma FramedAt(s: string, lo: nat, r: string, k: nat)
    requires Framed(s, lo, r) && k < |r|
    ensures s[lo + k] == r[k]
  {
    assert s[lo..lo + |r|][k] == s[lo + k];
  }

  lemma FramedEmpty(s: string, lo: nat)
    requires Framed(s, lo, [])
    ensures AllSpace(s)
  {
    forall i | 0 <= i < |s| ensures IsSpace(s[i]) {
      if i < lo { SpaceBefore(s, lo, i); } else { SpaceFrom(s, lo, i); }
    }
  }

  /** Two whitespace-framed slices that start with a non-space start together. */
  lemma FramedSameStart(s: string, lo: nat, t: string, lo': nat, r: string)
    requires Framed(s, lo, t) && Framed(s, lo', r)
    requires t != [] && !IsSpace(t[0]) && r != [] && !IsSpace(r[0])
    ensures lo == lo'
  {
    FramedAt(s, lo, t, 0);
    FramedAt(s, lo', r, 0);
    if lo < lo' { SpaceBefore(s, lo', lo); assert false; }
    if lo' < lo { SpaceBefore(s, lo, lo'); assert false; }
  }

  /** Two whitespace-framed slices that end with a non-space end together. */
  lemma FramedSameEnd(s: string, lo: nat, t: string, lo': nat, r: string)
    requires Framed(s, lo, t) && Framed(s, lo', r)
    requires t != [] && !IsSpace(t[|t| - 1]) && r != [] && !IsSpace(r[|r| - 1])
    ensures lo + |t| == lo' + |r|
  {
    var e, e' := lo + |t|, lo' + |r|;
    FramedAt(s, lo, t, |t| - 1);
    FramedAt(s, lo', r, |r| - 1);
    if e < e' { assert false; }
    if e' < e { assert false; }
  }

  /** The two properties of Strip's contract determine it: any whitespace-framed
      slice whose ends are not whitespace is `s.strip()`. */
  lemma StripUnique(s: string, lo: nat, t: string)
    requires Framed(s, lo, t)
    requires t == [] || (!IsSpace(t[0]) && !IsSpace(t[|t| - 1]))
    ensures Strip(s) == t
  {
    var r := Strip(s);
    var lo': nat :| Framed(s, lo', r);
    if t == [] {
      FramedEmpty(s, lo);
      if r != [] {
        assert false;
      }
    } else if r == [] {
      FramedEmpty(s, lo');
      assert false;
    } else {
      FramedSameStart(s, lo, t, lo', r);
      FramedSameEnd(s, lo, t, lo', r);
    }
  }

  /** A string with no whitespace at either end is its own `strip()`. */
  lemma StripOfStripped(s: string)
    requires s == [] || (!IsSpace(s[0]) && !IsSpace(s[|s| - 1]))
    ensures Strip(s) == s
  {
    assert Framed(s, 0, s) by {
      assert s[0..|s|] == s;
      assert s[|s|..] == [];
    }
    StripUnique(s, 0, s);
  }

  /** Stripping twice changes nothing more. */
  lemma StripIdempotent(s: string)
    ensures Strip(Strip(s)) == Strip(s)
  {
    StripOfStripped(Strip(s));
  }

  // ---------------------------------------------------------------- searching

  /** `s[i:i + len(pat)] == pat` with the whole of `pat` inside `s`. */
  predicate MatchAt(s: string, pat: string, i: nat) {
    i + |pat| <= |s| && s[i..i + |pat|] == pat
  }

  /** Each character of a match is the pattern's character. */
  lemma MatchAtChar(s: string, pat: string, i: nat, k: nat)
    requires MatchAt(s, pat, i) && k < |pat|
    ensures s[i + k] == pat[k]
  {
    assert s[i..i + |pat|][k] == s[i + k];
  }

  /** `pat in s` */
  predicate Contains(s: string, pat: string) {
    exists i: nat :: i <= |s| && MatchAt(s, pat, i)
  }

  /** The leftmost occurrence of `pat` in `s` at or after `from`. */
  function FindFrom(s: string, pat: string, from: nat): (r: Option<nat>)
    decreases |s| - from
    ensures r.Some? ==> from <= r.value && MatchAt(s, pat, r.value)
    ensures forall j: nat :: from <= j && (r.Some? ==> j < r.value) ==> !MatchAt(s, pat, j)
  {
    if from + |pat| > |s| then None
    else if s[from..from + |pat|] == pat then Some(from)
    else FindFrom(s, pat, from + 1)
  }

  /** `s.find(pat)`, with `None` for -1. */
  function Find(s: string, pat: string): (r: Option<nat>)
    ensures r.Some? ==> MatchAt(s, pat, r.value)
    ensures r.Some? ==> forall j: nat :: j < r.value ==> !MatchAt(s, pat, j)
    ensures r.None? <==> !Contains(s, pat)
  {
    FindFrom(s, pat, 0)
  }

  /** An occurrence inside a slice is an occurrence in the whole string. */
  lemma MatchInSlice(s: string, pat: string, lo: nat, hi: nat, j: nat)
    requires lo <= hi <= |s| && MatchAt(s[lo..hi], pat, j)
    ensures MatchAt(s, pat, lo + j)
  {
    var a := s[lo..hi];
    forall k | j <= k < j + |pat| ensures a[k] == s[lo + k] {
    }
    assert s[lo..hi][j..j + |pat|] == s[lo + j..lo + j + |pat|];
  }

  /** A slice of a string that lacks `pat` lacks it too. */
  lemma AbsentInSlice(s: string, pat: string, lo: nat, hi: nat)
    requires lo <= hi <= |s| && !Contains(s, pat)
    ensures !Contains(s[lo..hi], pat)
  {
    if Contains(s[lo..hi], pat) {
      var j: nat :| j <= hi - lo && MatchAt(s[lo..hi], pat, j);
      MatchInSlice(s, pat, lo, hi, j);
      assert false;
    }
  }

  /** Whatever `strip` leaves of a string that lacks `pat` lacks it too. */
  lemma StripKeepsAbsent(s: string, pat: string)
    requires !Contains(s, pat)
    ensures !Contains(Strip(s), pat)
  {
    var r := Strip(s);
    var lo: nat :| Framed(s, lo, r);
    AbsentInSlice(s, pat, lo, lo + |r|);
  }

  /** Where a longer pattern occurs, each of its prefixes occurs. */
  lemma PrefixPatternMatches(s: string, pat: string, q: string, i: nat)
    requires MatchAt(s, pat, i) && |q| <= |pat| && pat[..|q|] == q
    ensures MatchAt(s, q, i)
  {
    assert s[i..i + |pat|][..|q|] == s[i..i + |q|];
  }

  /** So a string that lacks a pattern lacks every extension of it. */
  lemma AbsentExtension(s: string, pat: string, q: string)
    requires !Contains(s, q) && |q| <= |pat| && pat[..|q|] == q
    ensures !Contains(s, pat)
  {
    if Contains(s, pat) {
      var i: nat :| i <= |s| && MatchAt(s, pat, i);
      PrefixPatternMatches(s, pat, q, i);
      assert false;
    }
  }

  /** The text before the first occurrence of `sep` (all of `s` if there is none)
      does not contain `sep`. */
  lemma BeforeFirstIsAbsent(s: string, sep: string, i: nat)
    requires i <= |s|
    requires forall j: nat :: j < i ==> !MatchAt(s, sep, j)
    requires sep != []
    ensures !Contains(s[..i], sep)
  {
    if Contains(s[..i], sep) {
      var j: nat :| j <= i && MatchAt(s[..i], sep, j);
      MatchInSlice(s, sep, 0, i, j);
      assert false;
    }
  }

  // ---------------------------------------------------------------- split and join

  /** `s.split(sep)` for a non-empty `sep` (Python raises ValueError on an empty
      one): the pieces between the leftmost non-overlapping occurrences. */
  function Split(s: string, sep: string): (parts: seq<string>)
    requires sep != []
    decreases |s|
    ensures |parts| >= 1
    ensures |parts| >= 2 <==> Contains(s, sep)
    ensures forall k :: 0 <= k < |parts| ==> !Contains(parts[k], sep)
  {
    match Find(s, sep)
    case None => [s]
    case Some(i) =>
      BeforeFirstIsAbsent(s, sep, i);
      assert MatchAt(s, sep, i);
      [s[..i]] + Split(s[i + |sep|..], sep)
  }

  /** `s.split(sep)[0]`: the text before the first `sep`, or all of `s`. */
  function Before(s: string, sep: string): (r: string)
    requires sep != []
    ensures |r| <= |s| && r == s[..|r|]
    ensures !Contains(r, sep)
    ensures forall j: nat :: j < |r| ==> !MatchAt(s, sep, j)
    ensures Contains(s, sep) ==> MatchAt(s, sep, |r|)
    ensures !Contains(s, sep) ==> r == s
  {
    match Find(s, sep)
    case None => s
    case Some(i) => BeforeFirstIsAbsent(s, sep, i); s[..i]
  }

  /** Before is pinned down by the position of the first occurrence: a prefix
      with no occurrence starting inside it, followed by an occurrence (or by
      nothing, when there is none), is `s.split(sep)[0]`. */
  lemma BeforeUnique(s: string, sep: string, i: nat)
    requires sep != [] && i <= |s|
    requires forall j: nat :: j < i ==> !MatchAt(s, sep, j)
    requires MatchAt(s, sep, i) || (i == |s| && !Contains(s, sep))
    ensures Before(s, sep) == s[..i]
  {
    var r := Before(s, sep);
    if MatchAt(s, sep, i) {
      assert Contains(s, sep);
      if |r| < i { assert false; }
      if i < |r| { assert false; }
    }
  }

  /** An occurrence that ends inside a prefix is an occurrence in that prefix. */
  lemma MatchInPrefix(s: string, pat: string, k: nat, m: nat)
    requires MatchAt(s, pat, k) && k + |pat| <= m <= |s|
    ensures MatchAt(s[..m], pat, k)
  {
    assert s[..m][k..k + |pat|] == s[k..k + |pat|];
  }

  /** Cutting `s` short does not change `s.split(sep)[0]` as long as the cut
      keeps the first `sep` whole or falls exactly where it starts. */
  lemma BeforeOfPrefix(s: string, sep: string, m: nat)
    requires sep != [] && m <= |s|
    requires |Before(s, sep)| + |sep| <= m || |Before(s, sep)| == m
    ensures Before(s[..m], sep) == Before(s, sep)
  {
    var k := |Before(s, sep)|;
    var b := s[..m];
    forall j: nat | j < k ensures !MatchAt(b, sep, j) {
      if MatchAt(b, sep, j) {
        MatchInSlice(s, sep, 0, m, j);
      }
    }
    if k + |sep| <= m {
      assert Contains(s, sep);
      MatchInPrefix(s, sep, k, m);
      BeforeUnique(b, sep, k);
      assert b[..k] == s[..k];
    } else {
      BeforeUnique(b, sep, k);
      assert b[..k] == s[..k];
    }
  }

  /** The text after the first `sep`. */
  function After(s: string, sep: string): (r: string)
    requires Contains(s, sep)
    ensures |r| + |sep| <= |s| && r == s[|s| - |r|..]
    ensures MatchAt(s, sep, |s| - |r| - |sep|)
    ensures forall j: nat :: j < |s| - |r| - |sep| ==> !MatchAt(s, sep, j)
  {
    var i := Find(s, sep).value;
    s[i + |sep|..]
  }

  /** The first piece of `s.split(sep)` is what precedes the first `sep`. */
  lemma SplitHead(s: string, sep: string)
    requires sep != []
    ensures Split(s, sep)[0] == Before(s, sep)
  {
  }

  /** The second piece of `s.split(sep)`, when there is one, is what lies between
      the first `sep` and the next. */
  lemma SplitSecond(s: string, sep: string)
    requires sep != [] && Contains(s, sep)
    ensures Split(s, sep)[1] == Before(After(s, sep), sep)
  {
    var i := Find(s, sep).value;
    var rest := s[i + |sep|..];
    assert Split(s, sep) == [s[..i]] + Split(rest, sep);
    SplitHead(rest, sep);
  }

  /** `sep.join(parts)` */
  function Join(parts: seq<string>, sep: string): string {
    if parts == [] then []
    else if |parts| == 1 then parts[0]
    else parts[0] + sep + Join(parts[1..], sep)
  }

  /** Joining is empty exactly for no parts or a single empty part, when the
      separator is not empty. */
  lemma JoinEmptyIff(parts: seq<string>, sep: string)
    requires sep != []
    ensures Join(parts, sep) == [] <==> |parts| == 0 || (|parts| == 1 && parts[0] == [])
  {
    if |parts| >= 2 {
      assert |Join(parts, sep)| >= |sep|;
    }
  }

  /** Joining keeps the order of the parts: one more part lands at the end,
      after one separator. */
  lemma {:induction false} JoinAppend(parts: seq<string>, x: string, sep: string)
    ensures Join(parts + [x], sep) == if parts == [] then x else Join(parts, sep) + sep + x
  {
    if |parts| <= 1 {
    } else {
      assert (parts + [x])[1..] == parts[1..] + [x];
      JoinAppend(parts[1..], x, sep);
    }
  }

  /** Round trip: `sep.join(s.split(sep)) == s`. */
  lemma {:induction false} SplitJoinRoundTrip(s: string, sep: string)
    requires sep != []
    decreases |s|
    ensures Join(Split(s, sep), sep) == s
  {
    match Find(s, sep)
    case None =>
    case Some(i) =>
      var rest := s[i + |sep|..];
      SplitJoinRoundTrip(rest, sep);
      assert Split(s, sep) == [s[..i]] + Split(rest, sep);
      assert s[i..i + |sep|] == sep;
      assert s == s[..i] + sep + rest;
  }

  // ---------------------------------------------------------------- replace

  /** `s.replace(pat, rep)` for a non-empty `pat`: every leftmost non-overlapping
      occurrence, scanning left to right, becomes `rep`. */
  function Replace(s: string, pat: string, rep: string): string
    requires pat != []
    decreases |s|
  {
    if |s| < |pat| then s
    else if s[..|pat|] == pat then rep + Replace(s[|pat|..], pat, rep)
    else [s[0]] + Replace(s[1..], pat, rep)
  }

  /** A prefix without any occurrence starting in it passes through unchanged. */
  lemma {:induction false} ReplaceSkipsPrefix(s: string, pat: string, rep: string, k: nat)
    requires pat != [] && k <= |s|
    requires forall j: nat :: j < k ==> !MatchAt(s, pat, j)
    decreases k
    ensures Replace(s, pat, rep) == s[..k] + Replace(s[k..], pat, rep)
  {
    if k == 0 {
      assert s[k..] == s;
    } else if |s| < |pat| {
      assert s[k..] == s[k..];
    } else {
      assert !MatchAt(s, pat, 0);
      forall j: nat | j < k - 1 ensures !MatchAt(s[1..], pat, j) {
        if MatchAt(s[1..], pat, j) {
          assert s[1..|s|] == s[1..];
          MatchInSlice(s, pat, 1, |s|, j);
        }
      }
      ReplaceSkipsPrefix(s[1..], pat, rep, k - 1);
      assert s[1..][k - 1..] == s[k..];
      assert [s[0]] + s[1..][..k - 1] == s[..k];
    }
  }

  /** `s.replace(pat, rep) == rep.join(s.split(pat))`: replacing agrees with
      splitting and re-joining, an independent definition. */
  lemma {:induction false} ReplaceIsJoinOfSplit(s: string, pat: string, rep: string)
    requires pat != []
    decreases |s|
    ensures Replace(s, pat, rep) == Join(Split(s, pat), rep)
  {
    match Find(s, pat)
    case None =>
      ReplaceSkipsPrefix(s, pat, rep, |s|);
      assert s[|s|..] == [];
      assert s[..|s|] == s;
    case Some(i) =>
      var rest := s[i + |pat|..];
      ReplaceSkipsPrefix(s, pat, rep, i);
      assert s[i..][..|pat|] == pat;
      assert s[i..][|pat|..] == rest;
      ReplaceIsJoinOfSplit(rest, pat, rep);
      assert Split(s, pat) == [s[..i]] + Split(rest, pat);
  }

  /** A string without `pat` comes out of `replace` unchanged. */
  lemma ReplaceAbsent(s: string, pat: string, rep: string)
    requires pat != [] && !Contains(s, pat)
    ensures Replace(s, pat, rep) == s
  {
    ReplaceIsJoinOfSplit(s, pat, rep);
  }

  // ---------------------------------------------------------------- suffixes and paths

  /** `s.endswith(suffix)`, case-sensitive. */
  predicate EndsWith(s: string, suffix: string) {
    |suffix| <= |s| && s[|s| - |suffix|..] == suffix
  }

  lemma SuffixAt(s: string, suffix: string, k: nat)
    requires EndsWith(s, suffix) && k < |suffix|
    ensures suffix[k] == s[|s| - |suffix| + k]
  {
    assert s[|s| - |suffix|..][k] == s[|s| - |suffix| + k];
  }

  /** `os.path.join(dir, name)` on POSIX: an absolute `name` replaces `dir`;
      otherwise a '/' is inserted unless `dir` is empty or already ends with one. */
  function JoinPath(dir: string, name: string): (path: string)
    ensures EndsWith(path, name)
  {
    if |name| > 0 && name[0] == '/' then name
    else if dir == [] || dir[|dir| - 1] == '/' then dir + name
    else dir + "/" + name
  }

  /** A suffix free of '/' is a suffix of the joined path exactly when it is a
      suffix of the file name: the directory never decides it. */
  lemma EndsWithJoinPath(dir: string, name: string, suffix: string)
    requires '/' !in suffix
    ensures EndsWith(JoinPath(dir, name), suffix) <==> EndsWith(name, suffix)
  {
    var path := JoinPath(dir, name);
    if EndsWith(name, suffix) {
      assert path[|path| - |suffix|..] == name[|name| - |suffix|..];
    } else if EndsWith(path, suffix) && |suffix| > |name| && dir != [] && !(|name| > 0 && name[0] == '/') {
      // the '/' just before `name` in `path` would lie inside the suffix
      var slash := |dir|;
      SuffixAt(path, suffix, slash - (|path| - |suffix|));
      assert false;
    }
  }

  // ---------------------------------------------------------------- numbers

  function DigitChar(d: nat): (c: char)
    requires d < 10
  {
    "0123456789"[d]
  }

  predicate IsDigit(c: char) {
    '0' <= c <= '9'
  }

  /** `str(n)` for a natural number: its decimal digits, no leading zero. */
  function NatToString(n: nat): (r: string)
    ensures r != [] && forall i :: 0 <= i < |r| ==> IsDigit(r[i])
    ensures r[0] == '0' <==> n == 0
  {
    if n < 10 then [DigitChar(n)] else NatToString(n / 10) + [DigitChar(n % 10)]
  }

  /** `int(s)` on a string of decimal digits. */
  function DigitsValue(s: string): nat
    requires forall i :: 0 <= i < |s| ==> IsDigit(s[i])
  {
    if s == [] then 0
    else
      assert IsDigit(s[|s| - 1]);
      DigitsValue(s[..|s| - 1]) * 10 + (s[|s| - 1] as int - '0' as int)
  }

  /** Round trip: `int(str(n)) == n`. */
  lemma {:induction false} NatToStringRoundTrip(n: nat)
    ensures DigitsValue(NatToString(n)) == n
  {
    if n >= 10 {
      var r := NatToString(n);
      assert r[..|r| - 1] == NatToString(n / 10);
      NatToStringRoundTrip(n / 10);
    }
  }

  /** Distinct numbers print differently. */
  lemma NatToStringInjective(m: nat, n: nat)
    requires NatToString(m) == NatToString(n)
    ensures m == n
  {
    NatToStringRoundTrip(m);
    NatToStringRoundTrip(n);
  }
}
