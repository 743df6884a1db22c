/**
 * String operations shared by the TypeScript and the Python code: `split` on a
 * one-character separator and its inverse `join`, the first and last piece of a
 * split, Python's `strip`, ASCII decimal digits and single-character `replace`.
 */
module Strings {

  /** `c.join(parts)` (Python) or `parts.join(c)` (JavaScript). */
  function Join(parts: seq<string>, c: char): string
  {
    if |parts| == 0 then ""
    else if |parts| == 1 then parts[0]
    else parts[0] + [c] + Join(parts[1..], c)
  }

  /**
   * `s.split(c)` for a one-character separator, which behaves the same in Python
   * and JavaScript: the empty string splits into one empty piece, and two adjacent
   * separators enclose an empty piece.
   */
  function Split(s: string, c: char): (parts: seq<string>)
    ensures |parts| >= 1
    ensures forall i :: 0 <= i < |parts| ==> c !in parts[i]
    ensures Join(parts, c) == s
    decreases |s|
  {
    if s == [] then [""]
    else
      var rest := Split(s[1..], c);
      if s[0] == c then
        assert s == [c] + s[1..];
        [""] + rest
      else
        var parts := [[s[0]] + rest[0]] + rest[1..];
        assert parts[1..] == rest[1..];
        assert s == [s[0]] + s[1..];
        parts
  }

  lemma {:induction false} SplitWithoutSeparator(s: string, c: char)
    requires c !in s
    ensures Split(s, c) == [s]
    decreases |s|
  {
    if s != [] {
      SplitWithoutSeparator(s[1..], c);
      assert [s[0]] + s[1..] == s;
    }
  }

  lemma {:induction false} SplitAfterPiece(p: string, c: char, t: string)
    requires c !in p
    ensures Split(p + [c] + t, c) == [p] + Split(t, c)
    decreases |p|
  {
    if p == [] {
      assert p + [c] + t == [c] + t;
      assert ([c] + t)[1..] == t;
    } else {
      assert (p + [c] + t)[1..] == p[1..] + [c] + t;
      SplitAfterPiece(p[1..], c, t);
      assert [p[0]] + p[1..] == p;
    }
  }

  /** Splitting undoes joining, for pieces that do not contain the separator. */
  lemma {:induction false} SplitJoin(parts: seq<string>, c: char)
    requires |parts| >= 1
    requires forall i :: 0 <= i < |parts| ==> c !in parts[i]
    ensures Split(Join(parts, c), c) == parts
    decreases |parts|
  {
    if |parts| == 1 {
      SplitWithoutSeparator(parts[0], c);
    } else {
      SplitJoin(parts[1..], c);
      SplitAfterPiece(parts[0], c, Join(parts[1..], c));
      assert [parts[0]] + parts[1..] == parts;
    }
  }

  lemma {:induction false} JoinHead(parts: seq<string>, c: char)
    requires |parts| >= 1
    ensures |parts[0]| <= |Join(parts, c)|
    ensures Join(parts, c)[..|parts[0]|] == parts[0]
    ensures |parts| > 1 ==> |parts[0]| < |Join(parts, c)| && Join(parts, c)[|parts[0]|] == c
  {
  }

  lemma {:induction false} JoinLast(parts: seq<string>, c: char)
    requires |parts| >= 1
    ensures var s, last := Join(parts, c), parts[|parts| - 1];
      |last| <= |s| && s[|s| - |last|..] == last &&
      (|parts| > 1 ==> |last| < |s| && s[|s| - |last| - 1] == c)
    decreases |parts|
  {
    if |parts| > 1 {
      JoinLast(parts[1..], c);
      var rest := Join(parts[1..], c);
      assert Join(parts, c) == (parts[0] + [c]) + rest;
      var last := parts[|parts| - 1];
      assert last == parts[1..][|parts[1..]| - 1];
      if |parts| == 2 {
        assert rest == last;
      }
    }
  }

  /** `s.split(c)[0]`: the text before the first `c`, or all of `s` when there is none. */
  function FirstPiece(s: string, c: char): (r: string)
    ensures |r| <= |s| && s[..|r|] == r
    ensures c !in r
    ensures |r| < |s| ==> s[|r|] == c
  {
    JoinHead(Split(s, c), c);
    Split(s, c)[0]
  }

  /** `s.split(c)[-1]`: the text after the last `c`, or all of `s` when there is none. */
  function LastPiece(s: string, c: char): (r: string)
    ensures |r| <= |s| && s[|s| - |r|..] == r
    ensures c !in r
    ensures |r| < |s| ==> s[|s| - |r| - 1] == c
  {
    var parts := Split(s, c);
    JoinLast(parts, c);
    parts[|parts| - 1]
  }

  /** An ASCII decimal digit. */
  predicate IsDigit(ch: char)
  {
    '0' <= ch <= '9'
  }

  predicate AllDigits(s: string)
  {
    forall i :: 0 <= i < |s| ==> IsDigit(s[i])
  }

  function DigitChar(d: int): (ch: char)
    requires 0 <= d < 10
    ensures IsDigit(ch) && (ch as int) - ('0' as int) == d
  {
    (('0' as int) + d) as char
  }

  /** The number written by a string of decimal digits; the empty string is 0. */
  function DigitsValue(s: string): (n: nat)
    requires AllDigits(s)
    decreases |s|
  {
    if s == [] then 0
    else DigitsValue(s[..|s| - 1]) * 10 + ((s[|s| - 1] as int) - ('0' as int))
  }

  /** Python's `str.isspace` for one character (also what `\s` matches in a `str` pattern). */
  predicate IsSpace(ch: char)
  {
    ch == ' ' || ch == '\t' || ch == '\n' || ch == '\r' || ch == '\U{0B}' || ch == '\U{0C}'
    || ('\U{1C}' <= ch <= '\U{1F}') || ch == '\U{85}' || ch == '\U{A0}' || ch == '\U{1680}'
    || ('\U{2000}' <= ch <= '\U{200A}') || ch == '\U{2028}' || ch == '\U{2029}'
    || ch == '\U{202F}' || ch == '\U{205F}' || ch == '\U{3000}'
  }

  predicate AllSpace(s: string)
  {
    forall i :: 0 <= i < |s| ==> IsSpace(s[i])
  }

  /** The first index at or after `i` that does not hold whitespace, or `|s|`. */
  function SkipSpaces(s: string, i: nat): (j: nat)
    requires i <= |s|
    ensures i <= j <= |s|
    ensures forall k :: i <= k < j ==> IsSpace(s[k])
    ensures j == |s| || !IsSpace(s[j])
    decreases |s| - i
  {
    if i < |s| && IsSpace(s[i]) then SkipSpaces(s, i + 1) else i
  }

  /** The last index at or before `j`, down to `lo`, that follows a non-whitespace character. */
  function SkipSpacesBack(s: string, lo: nat, j: nat): (m: nat)
    requires lo <= j <= |s|
    ensures lo <= m <= j
    ensures forall k :: m <= k < j ==> IsSpace(s[k])
    ensures m == lo || !IsSpace(s[m - 1])
    decreases j
  {
    if lo < j && IsSpace(s[j - 1]) then SkipSpacesBack(s, lo, j - 1) else j
  }

  /** Python's `s.strip()` with no argument: leading and trailing whitespace dropped. */
  function Strip(s: string): (r: string)
    ensures r == [] <==> AllSpace(s)
    ensures r != [] ==> !IsSpace(r[0]) && !IsSpace(r[|r| - 1])
    ensures exists i, j :: 0 <= i <= j <= |s| && r == s[i..j] && AllSpace(s[..i]) && AllSpace(s[j..])
  {
    var n := SkipSpaces(s, 0);
    var m := SkipSpacesBack(s, n, |s|);
    assert n < m ==> !IsSpace(s[n]);
    assert AllSpace(s[..n]) by {
      forall k | 0 <= k < n ensures IsSpace(s[..n][k]) {
        assert s[..n][k] == s[k];
      }
    }
    assert AllSpace(s[m..]) by {
      forall k | 0 <= k < |s| - m ensures IsSpace(s[m..][k]) {
        assert s[m..][k] == s[m + k];
      }
    }
    s[n..m]
  }

  /** Python's `s.replace(c, rep)` for a one-character `c`: every occurrence is replaced. */
  function ReplaceChar(s: string, c: char, rep: string): (r: string)
    ensures c !in rep ==> c !in r
    ensures c !in s ==> r == s
    decreases |s|
  {
    if s == [] then ""
    else (if s[0] == c then rep else [s[0]]) + ReplaceChar(s[1..], c, rep)
  }

  /** Replacing distributes over concatenation: each character is rewritten on its own. */
  lemma {:induction false} ReplaceCharAppend(a: string, b: string, c: char, rep: string)
    ensures ReplaceChar(a + b, c, rep) == ReplaceChar(a, c, rep) + ReplaceChar(b, c, rep)
    decreases |a|
  {
    if a != [] {
      assert (a + b)[0] == a[0] && (a + b)[1..] == a[1..] + b;
      ReplaceCharAppend(a[1..], b, c, rep);
      var h := if a[0] == c then rep else [a[0]];
      var x, y := ReplaceChar(a[1..], c, rep), ReplaceChar(b, c, rep);
      assert ReplaceChar(a + b, c, rep) == h + (x + y);
      assert ReplaceChar(a, c, rep) == h + x;
      ConcatAssoc(h, x, y);
    } else {
      assert a + b == b;
    }
  }

  lemma ConcatAssoc<T>(h: seq<T>, x: seq<T>, y: seq<T>)
    ensures h + (x + y) == (h + x) + y
  {
  }

  /** `sep.join(parts)` for a separator that is a whole string. */
  function JoinWith(parts: seq<string>, sep: string): string
  {
    if |parts| == 0 then ""
    else if |parts| == 1 then parts[0]
    else parts[0] + sep + JoinWith(parts[1..], sep)
  }

  lemma {:induction false} JoinWithOnHead(x: string, parts: seq<string>, sep: string)
    requires |parts| >= 1
    ensures JoinWith([x + parts[0]] + parts[1..], sep) == x + JoinWith(parts, sep)
  {
    var q := [x + parts[0]] + parts[1..];
    assert q[1..] == parts[1..];
  }

  /** Replacing a character is splitting at it and joining with the replacement. */
  lemma {:induction false} ReplaceIsSplitJoin(s: string, c: char, rep: string)
    ensures ReplaceChar(s, c, rep) == JoinWith(Split(s, c), rep)
    decreases |s|
  {
    if s != [] {
      var rest := Split(s[1..], c);
      ReplaceIsSplitJoin(s[1..], c, rep);
      if s[0] == c {
        assert Split(s, c) == [""] + rest;
        assert ([""] + rest)[1..] == rest;
      } else {
        JoinWithOnHead([s[0]], rest, rep);
      }
    }
  }

  /** The piece after the last `c` of `p + [c] + t` is `t`, when `t` has no `c`. */
  lemma LastPieceAfterSeparator(p: string, c: char, t: string)
    requires c !in t
    ensures LastPiece(p + [c] + t, c) == t
  {
    var s := p + [c] + t;
    var r := LastPiece(s, c);
    SuffixAcrossSeparator(p, c, t, r);
    assert s[|s| - |t|..] == t;
  }

  /** A suffix of `p + [c] + t` longer than `t` holds that `c`; a shorter one follows a character of `t`. */
  lemma SuffixAcrossSeparator(p: string, c: char, t: string, r: string)
    requires |r| <= |p + [c] + t| && (p + [c] + t)[|p + [c] + t| - |r|..] == r
    ensures |r| > |t| ==> c in r
    ensures |r| < |t| ==> (p + [c] + t)[|p + [c] + t| - |r| - 1] in t
  {
    var s := p + [c] + t;
    assert |s| == |p| + 1 + |t|;
    if |r| > |t| {
      assert r[|r| - |t| - 1] == s[|p|];
    }
    if |r| < |t| {
      assert s[|s| - |r| - 1] == t[|t| - |r| - 1];
    }
  }
}
