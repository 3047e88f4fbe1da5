/**
  The few functions of Go's strings and unicode packages the core relies on:
  strings.IndexRune, strings.TrimSpace (with unicode.IsSpace), strings.SplitN(s, " ", 2)
  and strings.EqualFold against an ASCII word; and strings.Cut, strings.Split and
  strings.Join with a one-character separator, with which a URL is read back.
 */
module Strings {

  /** strings.IndexRune: the index of the first occurrence of c in s, or -1. */
  function IndexRune(s: string, c: char): (i: int)
    ensures -1 <= i < |s|
    ensures i == -1 <==> c !in s
    ensures 0 <= i ==> s[i] == c && c !in s[..i]
  {
    if s == [] then -1
    else if s[0] == c then 0
    else
      var j := IndexRune(s[1..], c);
      assert s[1..][..if j < 0 then 0 else j] == s[1..if j < 0 then 1 else j + 1];
      if j == -1 then -1 else j + 1
  }

  /** unicode.IsSpace: the Latin-1 spaces '\t', '\n', '\v', '\f', '\r', ' ', U+0085, U+00A0,
      and the other characters of Unicode's White_Space property. */
  predicate IsSpace(c: char) {
    || c == '\t' || c == '\n' || c == '\U{000B}' || c == '\U{000C}' || c == '\r' || c == ' '
    || c == '\U{0085}' || c == '\U{00A0}' || c == '\U{1680}'
    || ('\U{2000}' <= c <= '\U{200A}')
    || c == '\U{2028}' || c == '\U{2029}' || c == '\U{202F}' || c == '\U{205F}' || c == '\U{3000}'
  }

  predicate AllSpace(s: string) {
    forall i :: 0 <= i < |s| ==> IsSpace(s[i])
  }

  /** No white space at either end. */
  predicate Trimmed(s: string) {
    s == [] || (!IsSpace(s[0]) && !IsSpace(s[|s| - 1]))
  }

  /** The number of white-space characters s starts with. */
  function LeadingSpace(s: string): (n: nat)
    ensures n <= |s| && AllSpace(s[..n]) && (n < |s| ==> !IsSpace(s[n]))
  {
    if s != [] && IsSpace(s[0]) then
      var n := 1 + LeadingSpace(s[1..]);
      assert s[..n] == [s[0]] + s[1..][..n - 1];
      n
    else 0
  }

  /** The number of white-space characters s ends with. */
  function TrailingSpace(s: string): (n: nat)
    ensures n <= |s| && AllSpace(s[|s| - n..]) && (n < |s| ==> !IsSpace(s[|s| - n - 1]))
  {
    if s != [] && IsSpace(s[|s| - 1]) then
      var init := s[..|s| - 1];
      var m := TrailingSpace(init);
      TrailingSpaceStep(s, m);
      m + 1
    else 0
  }

  lemma TrailingSpaceStep(s: string, m: nat)
    requires s != [] && IsSpace(s[|s| - 1]) && m <= |s| - 1
    requires AllSpace(s[..|s| - 1][|s| - 1 - m..])
    requires m < |s| - 1 ==> !IsSpace(s[..|s| - 1][|s| - 2 - m])
    ensures AllSpace(s[|s| - (m + 1)..])
    ensures m + 1 < |s| ==> !IsSpace(s[|s| - (m + 1) - 1])
  {
    var tail := s[|s| - (m + 1)..];
    forall i | 0 <= i < |tail| ensures IsSpace(tail[i]) {
      if i < m {
        assert tail[i] == s[..|s| - 1][|s| - 1 - m..][i];
      }
    }
  }

  /** strings.TrimSpace: s without its leading and trailing white space. */
  function TrimSpace(s: string): (t: string)
    ensures Trimmed(t)
    ensures t == [] <==> AllSpace(s)
  {
    var i := LeadingSpace(s);
    if i == |s| then
      assert s[..i] == s;
      []
    else
      var j := TrailingSpace(s);
      s[i..|s| - j]
  }

  /** What TrimSpace removes is white space from the two ends of s and nothing else. */
  lemma TrimSpaceIsInfix(s: string)
    ensures var i := LeadingSpace(s); var t := TrimSpace(s);
      && i + |t| <= |s|
      && s == s[..i] + t + s[i + |t|..]
      && AllSpace(s[..i]) && AllSpace(s[i + |t|..])
  {
    var i := LeadingSpace(s);
    if i < |s| {
      var j := TrailingSpace(s);
      ThreeSlices(s, i, |s| - j);
    } else {
      assert s[..i] == s;
    }
  }

  /** Trimming white space off t, with white space around it, gives t back exactly when t
      has no white space at its ends. */
  lemma {:induction false} TrimSpaceOfPadded(a: string, t: string, b: string)
    requires AllSpace(a) && AllSpace(b) && Trimmed(t)
    ensures TrimSpace(a + t + b) == t
  {
    var s := a + t + b;
    if t == [] {
      assert AllSpace(s) by {
        forall i | 0 <= i < |s| ensures IsSpace(s[i]) {
          if i < |a| { assert s[i] == a[i]; } else { assert s[i] == b[i - |a|]; }
        }
      }
    } else {
      assert s == a + (t + b);
      LeadingSpaceOfPadded(a, t + b);
      TrailingSpaceOfPadded(a + t, b);
      assert s[|a|..|s| - |b|] == t;
    }
  }

  lemma {:induction false} LeadingSpaceOfPadded(a: string, u: string)
    requires AllSpace(a) && u != [] && !IsSpace(u[0])
    ensures LeadingSpace(a + u) == |a|
  {
    if a != [] {
      assert (a + u)[1..] == a[1..] + u;
      LeadingSpaceOfPadded(a[1..], u);
    } else {
      assert a + u == u;
    }
  }

  lemma {:induction false} TrailingSpaceOfPadded(u: string, b: string)
    requires AllSpace(b) && u != [] && !IsSpace(u[|u| - 1])
    ensures TrailingSpace(u + b) == |b|
  {
    if b != [] {
      var s := u + b;
      assert s[..|s| - 1] == u + b[..|b| - 1];
      TrailingSpaceOfPadded(u, b[..|b| - 1]);
    } else {
      assert u + b == u;
    }
  }

  /** Trimming twice is trimming once. */
  lemma TrimSpaceIdempotent(s: string)
    ensures TrimSpace(TrimSpace(s)) == TrimSpace(s)
  {
    var t := TrimSpace(s);
    TrimSpaceOfPadded([], t, []);
    assert [] + t + [] == t;
  }

  /** strings.SplitN(s, " ", 2): s cut at its first ASCII space, or [s] when it has none. */
  function SplitFirstSpace(s: string): (parts: seq<string>)
    ensures |parts| == 1 || |parts| == 2
    ensures |parts| == 1 <==> ' ' !in s
    ensures |parts| == 1 ==> parts[0] == s
    ensures |parts| == 2 ==> ' ' !in parts[0] && s == parts[0] + " " + parts[1]
  {
    var k := IndexRune(s, ' ');
    if k == -1 then [s]
    else
      assert s == s[..k] + " " + s[k + 1..];
      [s[..k], s[k + 1..]]
  }

  /** ASCII upper case to lower case; every other character unchanged. */
  function AsciiLower(c: char): char {
    if 'A' <= c <= 'Z' then (c as int + 32) as char else c
  }

  /** strings.EqualFold(a, b) where b is an ASCII word none of whose letters is k or s:
      Unicode simple case folding then relates each letter of b only to its ASCII upper- and
      lower-case forms, so the comparison is ASCII case-insensitive, character by character. */
  predicate EqualFold(a: string, b: string) {
    |a| == |b| && forall i :: 0 <= i < |a| ==> AsciiLower(a[i]) == AsciiLower(b[i])
  }

  // ------------------------------------------------------------ cutting at a separator

  /** strings.Cut(s, string(c)): the text before the first c, or all of s when c does not
      occur. */
  function Before(s: string, c: char): string {
    var i := IndexRune(s, c);
    if i == -1 then s else s[..i]
  }

  /** The text after the first c, or "" when c does not occur. */
  function After(s: string, c: char): string {
    var i := IndexRune(s, c);
    if i == -1 then "" else s[i + 1..]
  }

  /** strings.Split(s, string(c)): the pieces of s between the occurrences of c. */
  function Fields(s: string, c: char): (parts: seq<string>)
    ensures |parts| >= 1
    decreases |s|
  {
    var i := IndexRune(s, c);
    if i == -1 then [s] else [s[..i]] + Fields(s[i + 1..], c)
  }

  /** A text without c is one piece, with nothing after it. */
  lemma Uncut(s: string, c: char)
    requires c !in s
    ensures Before(s, c) == s && After(s, c) == "" && Fields(s, c) == [s]
  {
  }

  /** Cutting a + c + b, where a has no c, gives a and b. */
  lemma CutAtFirst(a: string, c: char, b: string)
    requires c !in a
    ensures Before(a + [c] + b, c) == a && After(a + [c] + b, c) == b
    ensures Fields(a + [c] + b, c) == [a] + Fields(b, c)
  {
    var s := a + [c] + b;
    var i := IndexRune(s, c);
    assert s[|a|] == c;
    assert s[..|a|] == a && s[|a| + 1..] == b;
  }

  /** strings.Join(parts, string(c)). */
  function Join(parts: seq<string>, c: char): string
    requires |parts| >= 1
  {
    if |parts| == 1 then parts[0] else parts[0] + [c] + Join(parts[1..], c)
  }

  /** Splitting at c undoes joining with c, when no part contains c. */
  lemma {:induction false} SplitJoin(parts: seq<string>, c: char)
    requires |parts| >= 1 && forall i :: 0 <= i < |parts| ==> c !in parts[i]
    ensures Fields(Join(parts, c), c) == parts
  {
    if |parts| == 1 {
      Uncut(parts[0], c);
    } else {
      CutAtFirst(parts[0], c, Join(parts[1..], c));
      SplitJoin(parts[1..], c);
      assert [parts[0]] + parts[1..] == parts;
    }
  }

  /** A character that is neither the separator nor in any part is not in the join. */
  lemma {:induction false} JoinAvoids(parts: seq<string>, c: char, d: char)
    requires |parts| >= 1 && d != c && forall i :: 0 <= i < |parts| ==> d !in parts[i]
    ensures d !in Join(parts, c)
  {
    if |parts| > 1 {
      JoinAvoids(parts[1..], c, d);
      assert d !in parts[0];
    }
  }

  /** The last part of a join can be read off it: joins that differ only in their last part
      are equal only when those parts are. */
  lemma {:induction false} JoinLast(parts: seq<string>, x: string, y: string, c: char)
    requires Join(parts + [x], c) == Join(parts + [y], c)
    ensures x == y
  {
    if parts == [] {
      assert parts + [x] == [x] && parts + [y] == [y];
    } else {
      var head := parts[0] + [c];
      assert (parts + [x])[1..] == parts[1..] + [x];
      assert (parts + [y])[1..] == parts[1..] + [y];
      var jx, jy := Join(parts[1..] + [x], c), Join(parts[1..] + [y], c);
      assert jx == (head + jx)[|head|..];
      assert jy == (head + jy)[|head|..];
      JoinLast(parts[1..], x, y, c);
    }
  }

  // ------------------------------------------------------------ sequence facts used above

  /** Concatenation regroups freely. */
  lemma AppendAssoc(x: string, y: string, z: string)
    ensures x + y + z == x + (y + z)
  {
  }

  /** A string is the concatenation of its three slices at a and b. */
  lemma ThreeSlices(s: string, a: nat, b: nat)
    requires a <= b <= |s|
    ensures s == s[..a] + s[a..b] + s[b..]
  {
  }
}
