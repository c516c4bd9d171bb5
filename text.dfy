/**
 * The Python string operations the pipeline relies on, stated on `seq<char>`:
 * `str.strip()`, `str.lower()`, the substring test `in`, `str.replace`,
 * `str.split('\n')`, `"".join(...)` and `readlines()`.
 */
module Text {

  // ---------------------------------------------------------------------------
  // Whitespace and str.strip()

  /** The characters CPython's `str.strip()` removes when given no argument. */
  predicate IsSpace(c: char) {
    || ('\t' <= c <= '\r')           // tab, line feed, vertical tab, form feed, carriage return
    || ('\U{1C}' <= c <= ' ')         // the four information separators and space
    || c == '\U{85}' || c == '\U{A0}' || c == '\U{1680}'
    || ('\U{2000}' <= c <= '\U{200A}')
    || c == '\U{2028}' || c == '\U{2029}' || c == '\U{202F}' || c == '\U{205F}' || c == '\U{3000}'
  }

  predicate AllSpace(s: string) {
    forall i :: 0 <= i < |s| ==> IsSpace(s[i])
  }

  /** A string with no leading and no trailing whitespace. */
  predicate Stripped(s: string) {
    s == [] || (!IsSpace(s[0]) && !IsSpace(s[|s| - 1]))
  }

  /** The first index at or after `i` that does not hold whitespace (`|s|` when there is none). */
  function SkipSpace(s: string, i: nat): (j: nat)
    requires i <= |s|
    ensures i <= j <= |s|
    ensures forall m :: i <= m < j ==> IsSpace(s[m])
    ensures j == |s| || !IsSpace(s[j])
    decreases |s| - i
  {
    if i < |s| && IsSpace(s[i]) then SkipSpace(s, i + 1) else i
  }

  /** The least index from which everything up to `j` is whitespace. */
  function SkipSpaceBack(s: string, j: nat): (i: nat)
    requires j <= |s|
    ensures i <= j
    ensures forall m :: i <= m < j ==> IsSpace(s[m])
    ensures i == 0 || !IsSpace(s[i - 1])
  {
    if j > 0 && IsSpace(s[j - 1]) then SkipSpaceBack(s, j - 1) else j
  }

  /** `str.lstrip()`: the suffix left after dropping leading whitespace. */
  function StripLeft(s: string): (r: string)
    ensures |r| <= |s| && r == s[|s| - |r|..]
    ensures AllSpace(s[..|s| - |r|])
    ensures r == [] || !IsSpace(r[0])
  {
    var k := SkipSpace(s, 0);
    assert forall m :: 0 <= m < k ==> s[..k][m] == s[m];
    s[k..]
  }

  /** `str.rstrip()`: the prefix left after dropping trailing whitespace. */
  function StripRight(s: string): (r: string)
    ensures |r| <= |s| && r == s[..|r|]
    ensures AllSpace(s[|r|..])
    ensures r == [] || !IsSpace(r[|r| - 1])
  {
    var e := SkipSpaceBack(s, |s|);
    assert forall m :: 0 <= m < |s| - e ==> s[e..][m] == s[e + m];
    s[..e]
  }

  /** Where the text `str.strip()` keeps begins: after the leading whitespace. */
  function StripStart(s: string): nat {
    SkipSpace(s, 0)
  }

  /**
   * `str.strip()`: exactly the leading and the trailing whitespace go, and what
   * lies between them is kept as it is.
   */
  function Strip(s: string): (r: string)
    ensures Stripped(r)
    ensures StripStart(s) + |r| <= |s| && r == s[StripStart(s)..StripStart(s) + |r|]
    ensures forall m :: 0 <= m < StripStart(s) ==> IsSpace(s[m])
    ensures forall m :: StripStart(s) + |r| <= m < |s| ==> IsSpace(s[m])
    ensures Contains(s, r)
    ensures r == [] <==> AllSpace(s)
    ensures Stripped(s) ==> r == s
  {
    var k := SkipSpace(s, 0);
    var e := if k == |s| then k else SkipSpaceBack(s, |s|);
    assert s[k..e] <= s[k..];
    s[k..e]
  }

  /** `strip` is `lstrip` followed by `rstrip`. */
  lemma StripIsBothSides(s: string)
    ensures Strip(s) == StripRight(StripLeft(s))
  {
    var k := SkipSpace(s, 0);
    SkipSpaceBackShift(s, k, |s|);
  }

  /** Scanning back over a suffix of `s` stops where the scan over `s` itself stops. */
  lemma {:induction false} SkipSpaceBackShift(s: string, k: nat, j: nat)
    requires k <= j <= |s|
    requires k == |s| || (k < j && !IsSpace(s[k]))
    ensures k + SkipSpaceBack(s[k..], j - k) == (if k == |s| then k else SkipSpaceBack(s, j))
    decreases j
  {
    if k < |s| {
      if j > k && IsSpace(s[j - 1]) {
        assert s[k..][j - k - 1] == s[j - 1];
        SkipSpaceBackShift(s, k, j - 1);
      } else if j > k {
        assert s[k..][j - k - 1] == s[j - 1];
      }
    }
  }

  // ---------------------------------------------------------------------------
  // str.lower() on ASCII letters

  function LowerChar(c: char): (d: char)
    ensures 'A' <= c <= 'Z' ==> d as int == c as int + 32
    ensures !('A' <= c <= 'Z') ==> d == c
  {
    if 'A' <= c <= 'Z' then (c as int + 32) as char else c
  }

  function Lower(s: string): (r: string)
    ensures |r| == |s|
    ensures forall i :: 0 <= i < |s| ==> r[i] == LowerChar(s[i])
  {
    seq(|s|, i requires 0 <= i < |s| => LowerChar(s[i]))
  }

  // ---------------------------------------------------------------------------
  // Substrings: Python's `needle in haystack`

  /** `p in s` for strings: `p` occurs in `s` at some offset. */
  predicate Contains(s: string, p: string) {
    exists i :: 0 <= i <= |s| && p <= s[i..]
  }

  lemma EmptyIsEverywhere(s: string)
    ensures Contains(s, "")
  {
    assert "" <= s[0..];
  }

  /** An occurrence inside an occurrence is an occurrence. */
  lemma ContainsTransitive(s: string, t: string, p: string)
    requires Contains(s, t) && Contains(t, p)
    ensures Contains(s, p)
  {
    var i :| 0 <= i <= |s| && t <= s[i..];
    var j :| 0 <= j <= |t| && p <= t[j..];
    assert p <= s[i + j..] by {
      forall k | 0 <= k < |p| ensures p[k] == s[i + j + k] {
        assert p[k] == t[j + k];
      }
    }
  }

  /** The occurrences in `[c] + u` are the one at the front and those in `u`. */
  lemma {:induction false} ContainsCons(c: char, u: string, p: string)
    ensures Contains([c] + u, p) <==> p <= [c] + u || Contains(u, p)
  {
    var s := [c] + u;
    if Contains(s, p) && !(p <= s) {
      var i :| 0 <= i <= |s| && p <= s[i..];
      assert i > 0;
      assert s[i..] == u[i - 1..];
    }
    if Contains(u, p) {
      var i :| 0 <= i <= |u| && p <= u[i..];
      assert s[i + 1..] == u[i..];
    }
    if p <= s {
      assert s[0..] == s;
    }
  }

  // ---------------------------------------------------------------------------
  // str.replace(pat, rep): leftmost, non-overlapping occurrences

  function Replace(s: string, pat: string, rep: string): (r: string)
    requires pat != []
    ensures rep == [] ==> |r| <= |s|
    decreases |s|
  {
    if |s| < |pat| then s
    else if pat <= s then rep + Replace(s[|pat|..], pat, rep)
    else [s[0]] + Replace(s[1..], pat, rep)
  }

  /** With no occurrence of the pattern there is nothing to replace. */
  lemma {:induction false} ReplaceAbsent(s: string, pat: string, rep: string)
    requires pat != [] && !Contains(s, pat)
    ensures Replace(s, pat, rep) == s
    decreases |s|
  {
    if |s| >= |pat| {
      assert !(pat <= s) by { assert s[0..] == s; }
      assert s == [s[0]] + s[1..];
      ContainsCons(s[0], s[1..], pat);
      ReplaceAbsent(s[1..], pat, rep);
    }
  }

  /** Replacing in `x + t` leaves `x` alone when no character of `x` can start the pattern. */
  lemma {:induction false} ReplaceSkipsPrefix(x: string, t: string, pat: string, rep: string)
    requires pat != []
    requires forall i :: 0 <= i < |x| ==> x[i] != pat[0]
    ensures Replace(x + t, pat, rep) == x + Replace(t, pat, rep)
  {
    if x != [] {
      var s := x + t;
      if |s| < |pat| {
        assert |t| < |pat|;
      } else {
        assert s[0] == x[0] && s[1..] == x[1..] + t;
        assert !(pat <= s) by { assert s[0] != pat[0]; }
        ReplaceSkipsPrefix(x[1..], t, pat, rep);
        ghost var u := Replace(t, pat, rep);
        assert Replace(s, pat, rep) == [x[0]] + (x[1..] + u);
        assert x == [x[0]] + x[1..];
      }
    } else {
      assert x + t == t;
    }
  }

  const Fence: string := "```"

  /** Deleting every "```" cannot leave a "```" behind (the pattern is one repeated character). */
  lemma {:induction false} NoFenceAfterRemoval(s: string)
    ensures !Contains(Replace(s, Fence, ""), Fence)
    decreases |s|
  {
    var r := Replace(s, Fence, "");
    if |s| < 3 {
      assert r == s;
    } else if Fence <= s {
      assert r == Replace(s[3..], Fence, "");
      NoFenceAfterRemoval(s[3..]);
    } else {
      var u := Replace(s[1..], Fence, "");
      assert r == [s[0]] + u;
      NoFenceAfterRemoval(s[1..]);
      ContainsCons(s[0], u, Fence);
      if Fence <= r {
        assert false;
      }
    }
  }

  // ---------------------------------------------------------------------------
  // Lines

  /** `"".join(lines)`: the pieces one after another, so the result is empty exactly when every piece is. */
  function Concat(lines: seq<string>): (r: string)
    ensures |lines| > 0 ==> lines[0] <= r
    ensures r == [] <==> forall i :: 0 <= i < |lines| ==> lines[i] == []
  {
    if lines == [] then ""
    else
      var rest := Concat(lines[1..]);
      assert forall i :: 1 <= i < |lines| ==> lines[i] == lines[1..][i - 1];
      lines[0] + rest
  }

  /** Joining two runs of pieces is joining each and concatenating the results. */
  lemma {:induction false} ConcatAppend(a: seq<string>, b: seq<string>)
    ensures Concat(a + b) == Concat(a) + Concat(b)
  {
    if a == [] {
      assert a + b == b;
    } else {
      assert (a + b)[1..] == a[1..] + b;
      ConcatAppend(a[1..], b);
    }
  }

  /** A line as `readlines` returns it: non-empty, a `'\n'` at most at its end. */
  predicate IsLine(l: string) {
    l != [] && forall i :: 0 <= i < |l| - 1 ==> l[i] != '\n'
  }

  /** A line that ends with its `'\n'` terminator. */
  predicate EndsLine(l: string) {
    l != [] && l[|l| - 1] == '\n'
  }

  /** The length of the first line of `s`, its terminating `'\n'` included. */
  function LineLength(s: string): (k: nat)
    requires s != []
    ensures 0 < k <= |s|
    ensures forall i :: 0 <= i < k - 1 ==> s[i] != '\n'
    ensures k < |s| ==> s[k - 1] == '\n'
  {
    if s[0] == '\n' || |s| == 1 then 1 else 1 + LineLength(s[1..])
  }

  /** `readlines()`: lines that keep their `'\n'` terminator, so their concatenation is the text. */
  function ReadLines(s: string): (lines: seq<string>)
    ensures Concat(lines) == s
    ensures forall i :: 0 <= i < |lines| ==> IsLine(lines[i])
    ensures forall i :: 0 <= i < |lines| - 1 ==> EndsLine(lines[i])
    ensures lines == [] <==> s == []
    decreases |s|
  {
    if s == [] then []
    else
      var k := LineLength(s);
      var rest := ReadLines(s[k..]);
      ConsLine(s[..k], rest);
      SplitAt(s, k);
      [s[..k]] + rest
  }

  /** Cutting a text at `k` and putting the halves back together gives the text. */
  lemma SplitAt(s: string, k: nat)
    requires k <= |s|
    ensures s[..k] + s[k..] == s
  {
  }

  /** Putting a line in front of well-shaped lines keeps them well shaped, and their concatenation grows by that line. */
  lemma ConsLine(line: string, rest: seq<string>)
    requires IsLine(line) && (rest != [] ==> EndsLine(line))
    requires forall i :: 0 <= i < |rest| ==> IsLine(rest[i])
    requires forall i :: 0 <= i < |rest| - 1 ==> EndsLine(rest[i])
    ensures Concat([line] + rest) == line + Concat(rest)
    ensures forall i :: 0 <= i < |[line] + rest| ==> IsLine(([line] + rest)[i])
    ensures forall i :: 0 <= i < |[line] + rest| - 1 ==> EndsLine(([line] + rest)[i])
  {
    var lines := [line] + rest;
    assert lines[1..] == rest;
    forall i | 1 <= i < |lines| ensures lines[i] == rest[i - 1] {
    }
  }

  /** A complete first line is split off intact. */
  lemma FirstLineSplitsOff(line: string, rest: string)
    requires IsLine(line) && EndsLine(line)
    ensures ReadLines(line + rest) == [line] + ReadLines(rest)
  {
    var s := line + rest;
    var k := LineLength(s);
    assert s[|line| - 1] == '\n';
    assert k == |line|;
    assert s[..k] == line && s[k..] == rest;
  }

  /** There are at least two lines iff some `'\n'` is followed by more text. */
  lemma TwoLinesIffInnerNewline(s: string)
    ensures |ReadLines(s)| >= 2 <==> exists i :: 0 <= i < |s| - 1 && s[i] == '\n'
  {
    if s != [] {
      var k := LineLength(s);
      assert ReadLines(s) == [s[..k]] + ReadLines(s[k..]);
      if k < |s| {
        assert s[k - 1] == '\n';
      }
    }
  }

  /** `s.split(sep)`: the pieces between separators, always at least one. */
  function Split(s: string, sep: char): (pieces: seq<string>)
    ensures |pieces| >= 1
    ensures forall i, j :: 0 <= i < |pieces| && 0 <= j < |pieces[i]| ==> pieces[i][j] != sep
    decreases |s|
  {
    if s == [] then [""]
    else if s[0] == sep then [""] + Split(s[1..], sep)
    else
      var tail := Split(s[1..], sep);
      [[s[0]] + tail[0]] + tail[1..]
  }

  /** `sep.join(pieces)`. */
  function JoinWith(pieces: seq<string>, sep: char): string
    requires |pieces| >= 1
  {
    if |pieces| == 1 then pieces[0] else pieces[0] + [sep] + JoinWith(pieces[1..], sep)
  }

  /** Splitting loses nothing: joining the pieces with the separator gives the text back. */
  lemma {:induction false} SplitJoinRoundTrip(s: string, sep: char)
    ensures JoinWith(Split(s, sep), sep) == s
    decreases |s|
  {
    if s != [] {
      SplitJoinRoundTrip(s[1..], sep);
      var tail := Split(s[1..], sep);
      if s[0] == sep {
        assert s == [sep] + s[1..];
      } else {
        var rest := tail[1..];
        if |tail| == 1 {
          assert s == [s[0]] + tail[0];
        } else {
          assert tail == [tail[0]] + rest;
          assert JoinWith(tail, sep) == tail[0] + [sep] + JoinWith(rest, sep);
          assert s == [s[0]] + s[1..];
        }
      }
    }
  }
}
