/** The pieces of Go's `strings` package the program relies on, over `string`
    as a sequence of Unicode scalar values. */
module Strings {

  /** Go's `unicode.IsSpace`: the Latin-1 spaces plus the other code points
      carrying the Unicode White_Space property. */
  predicate IsSpace(c: char) {
    || c == ' ' || c == '\t' || c == '\n' || c == '\U{000B}' || c == '\U{000C}' || c == '\r'
    || c == '\U{0085}' || c == '\U{00A0}' || c == '\U{1680}'
    || ('\U{2000}' <= c <= '\U{200A}')
    || c == '\U{2028}' || c == '\U{2029}' || c == '\U{202F}' || c == '\U{205F}' || c == '\U{3000}'
  }

  predicate IsSlash(c: char) {
    c == '/'
  }

  /** Number of leading characters satisfying `p`. */
  function LeadingCount(s: string, p: char -> bool): (n: nat)
    ensures n <= |s|
    ensures forall k :: 0 <= k < n ==> p(s[k])
    ensures n < |s| ==> !p(s[n])
  {
    if |s| > 0 && p(s[0]) then 1 + LeadingCount(s[1..], p) else 0
  }

  /** Number of trailing characters satisfying `p`. */
  function TrailingCount(s: string, p: char -> bool): (n: nat)
    ensures n <= |s|
    ensures forall k :: |s| - n <= k < |s| ==> p(s[k])
    ensures n < |s| ==> !p(s[|s| - 1 - n])
  {
    if |s| > 0 && p(s[|s| - 1]) then 1 + TrailingCount(s[..|s| - 1], p) else 0
  }

  /** `strings.TrimFunc`: the longest infix of `s` that neither starts nor ends
      with a character satisfying `p`, all removed characters satisfying `p`. */
  function TrimFunc(s: string, p: char -> bool): (r: string)
    ensures |r| <= |s|
    ensures LeadingCount(s, p) + |r| <= |s|
    ensures r == s[LeadingCount(s, p)..LeadingCount(s, p) + |r|]
    ensures forall k :: LeadingCount(s, p) + |r| <= k < |s| ==> p(s[k])
    ensures r != [] ==> !p(r[0]) && !p(r[|r| - 1])
    ensures r == [] <==> forall k :: 0 <= k < |s| ==> p(s[k])
  {
    var t := s[LeadingCount(s, p)..];
    t[..|t| - TrailingCount(t, p)]
  }

  /** `strings.TrimSpace`. */
  function TrimSpace(s: string): string {
    TrimFunc(s, IsSpace)
  }

  /** `strings.Trim(s, "/")`. */
  function TrimSlashes(s: string): string {
    TrimFunc(s, IsSlash)
  }

  /** Trimming changes nothing when neither end carries a trimmed character. */
  lemma TrimFuncNoop(s: string, p: char -> bool)
    requires s == [] || (!p(s[0]) && !p(s[|s| - 1]))
    ensures TrimFunc(s, p) == s
  {
  }

  /** Trimming a string whose first `lo` characters are trimmed and whose
      character at `lo` and last character are kept leaves `s[lo..]`. */
  lemma TrimFuncDropsPrefix(s: string, p: char -> bool, lo: nat)
    requires lo < |s|
    requires forall k :: 0 <= k < lo ==> p(s[k])
    requires !p(s[lo]) && !p(s[|s| - 1])
    ensures TrimFunc(s, p) == s[lo..]
  {
    var n := LeadingCount(s, p);
    assert n == lo;
    var r := TrimFunc(s, p);
    assert n + |r| == |s|;
  }

  /** Slash trimming keeps a non-empty slash-free tail. */
  lemma TrimSlashesKeepsTail(a: string, b: string)
    requires b != [] && '/' !in b
    ensures HasSuffix(TrimSlashes(a + b), b)
  {
    var s := a + b;
    var n := LeadingCount(s, IsSlash);
    assert s[|a|] == b[0];
    assert n <= |a|;
    var r := TrimSlashes(s);
    assert s[|s| - 1] == b[|b| - 1];
    assert n + |r| == |s|;
    assert r == s[n..];
    assert r[|r| - |b|..] == s[|a|..] == b;
  }

  /** Trimming is idempotent. */
  lemma TrimFuncIdempotent(s: string, p: char -> bool)
    ensures TrimFunc(TrimFunc(s, p), p) == TrimFunc(s, p)
  {
    TrimFuncNoop(TrimFunc(s, p), p);
  }

  /** ASCII case folding, the part of `unicode.ToLower` this model covers. */
  function Lower(c: char): (d: char)
    ensures !('A' <= d <= 'Z')
    ensures 'A' <= c <= 'Z' || d == c
  {
    if 'A' <= c <= 'Z' then (c as int + ('a' as int - 'A' as int)) as char else c
  }

  predicate IsLowered(s: string) {
    forall k :: 0 <= k < |s| ==> !('A' <= s[k] <= 'Z')
  }

  /** `strings.ToLower`, character by character. */
  function ToLower(s: string): (r: string)
    ensures |r| == |s|
    ensures forall k :: 0 <= k < |s| ==> r[k] == Lower(s[k])
    ensures IsLowered(r)
  {
    seq(|s|, k requires 0 <= k < |s| => Lower(s[k]))
  }

  /** `strings.ReplaceAll(s, [from], [to])` for single-character patterns. */
  function ReplaceChar(s: string, from: char, to: char): (r: string)
    ensures |r| == |s|
    ensures forall k :: 0 <= k < |s| ==> r[k] == (if s[k] == from then to else s[k])
    ensures from != to ==> from !in r
  {
    seq(|s|, k requires 0 <= k < |s| => if s[k] == from then to else s[k])
  }

  predicate HasPrefix(s: string, pre: string) {
    |pre| <= |s| && s[..|pre|] == pre
  }

  predicate HasSuffix(s: string, suf: string) {
    |suf| <= |s| && s[|s| - |suf|..] == suf
  }

  /** `strings.TrimPrefix`: drops `pre` once if `s` starts with it. */
  function TrimPrefix(s: string, pre: string): (r: string)
    ensures HasPrefix(s, pre) ==> s == pre + r
    ensures !HasPrefix(s, pre) ==> r == s
  {
    if HasPrefix(s, pre) then s[|pre|..] else s
  }

  /** `strings.TrimSuffix`: drops `suf` once if `s` ends with it. */
  function TrimSuffix(s: string, suf: string): (r: string)
    ensures HasSuffix(s, suf) ==> s == r + suf
    ensures !HasSuffix(s, suf) ==> r == s
  {
    if HasSuffix(s, suf) then s[..|s| - |suf|] else s
  }

  /** The normal form `strings.ToLower(strings.TrimSpace(s))` used for
      auth modes and e-mail addresses. */
  function Canonical(s: string): string {
    ToLower(TrimSpace(s))
  }

  /** `strings.Join(parts, [sep])`. */
  function JoinWith(parts: seq<string>, sep: char): string {
    if |parts| == 0 then []
    else if |parts| == 1 then parts[0]
    else parts[0] + [sep] + JoinWith(parts[1..], sep)
  }

  /** Prepending to the first element of a join prepends to the join. */
  lemma JoinWithConsFirst(c: char, parts: seq<string>, sep: char)
    requires |parts| >= 1
    ensures JoinWith([[c] + parts[0]] + parts[1..], sep) == [c] + JoinWith(parts, sep)
  {
    if |parts| > 1 {
      assert ([[c] + parts[0]] + parts[1..])[1..] == parts[1..];
    }
  }

  /** `strings.Split(s, [sep])`: the pieces between separators, so there is one
      more piece than separators and joining them back gives `s`. */
  function Split(s: string, sep: char): (r: seq<string>)
    ensures |r| >= 1
    ensures forall i :: 0 <= i < |r| ==> sep !in r[i]
    ensures JoinWith(r, sep) == s
  {
    if s == [] then [[]]
    else
      var rest := Split(s[1..], sep);
      if s[0] == sep then
        assert [[]] + rest == [[]] + rest[0..1] + rest[1..];
        [[]] + rest
      else
        JoinWithConsFirst(s[0], rest, sep);
        [[s[0]] + rest[0]] + rest[1..]
  }

  /** A trailing separator adds exactly one empty piece. */
  lemma {:induction false} SplitTrailingSeparator(s: string, sep: char)
    ensures Split(s + [sep], sep) == Split(s, sep) + [[]]
  {
    if s == [] {
      assert (s + [sep])[1..] == [];
    } else {
      assert (s + [sep])[1..] == s[1..] + [sep];
      SplitTrailingSeparator(s[1..], sep);
    }
  }

  /** A string without the separator is a single piece. */
  lemma {:induction false} SplitNoSeparator(s: string, sep: char)
    requires sep !in s
    ensures Split(s, sep) == [s]
  {
    if s != [] {
      SplitNoSeparator(s[1..], sep);
    }
  }

  /** Index of the last character satisfying `p`, or -1 (`strings.LastIndexFunc`). */
  function LastIndexWhere(s: string, p: char -> bool): (i: int)
    ensures -1 <= i < |s|
    ensures i >= 0 ==> p(s[i])
    ensures forall k :: i < k < |s| ==> !p(s[k])
  {
    if s == [] then -1
    else if p(s[|s| - 1]) then |s| - 1
    else LastIndexWhere(s[..|s| - 1], p)
  }

  /** The last match of `p` in `a + b` lies in `b` when `b` has one. */
  lemma LastIndexWhereAppend(a: string, b: string, p: char -> bool)
    requires LastIndexWhere(b, p) >= 0
    ensures LastIndexWhere(a + b, p) == |a| + LastIndexWhere(b, p)
  {
    var i := LastIndexWhere(a + b, p);
    var j := LastIndexWhere(b, p);
    assert (a + b)[|a| + j] == b[j];
    assert forall k :: |a| + j < k < |a| + |b| ==> (a + b)[k] == b[k - |a|];
  }

  /** A tail without matches leaves the last match where it was. */
  lemma LastIndexWhereSkipsTail(a: string, b: string, p: char -> bool)
    requires forall k :: 0 <= k < |b| ==> !p(b[k])
    ensures LastIndexWhere(a + b, p) == LastIndexWhere(a, p)
  {
    var i := LastIndexWhere(a + b, p);
    var j := LastIndexWhere(a, p);
    assert forall k :: |a| <= k < |a + b| ==> (a + b)[k] == b[k - |a|];
    assert forall k :: 0 <= k < |a| ==> (a + b)[k] == a[k];
    assert j >= 0 ==> p((a + b)[j]);
    assert i >= 0 ==> i < |a| && p(a[i]);
  }

  /** No match of `p` means there is no last match. */
  lemma LastIndexWhereNone(s: string, p: char -> bool)
    requires forall k :: 0 <= k < |s| ==> !p(s[k])
    ensures LastIndexWhere(s, p) == -1
  {
  }
}
