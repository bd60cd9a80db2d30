/**
 * String helpers shared by the rest of the model: the subset of Python's
 * `str` methods (`strip`, `rstrip`, `startswith`, `replace`, `split`,
 * `lower`, `isalnum`) and of slicing that the modelled code relies on.
 * Strings are sequences of Unicode scalar values, as in Python 3.
 */
module Text {

  /** Python's `str.isspace`, which is also the set matched by `\s` in a
      `str` regular expression: the ASCII controls 9-13 and 28-31, the space,
      and the Unicode space separators and line/paragraph separators. */
  predicate IsSpace(c: char) {
    || ('\U{0009}' <= c <= '\U{000D}')
    || ('\U{001C}' <= c <= '\U{0020}')
    || c == '\U{0085}' || c == '\U{00A0}' || c == '\U{1680}'
    || ('\U{2000}' <= c <= '\U{200A}')
    || c == '\U{2028}' || c == '\U{2029}' || c == '\U{202F}' || c == '\U{205F}'
    || c == '\U{3000}'
  }

  predicate AllSpace(s: string) {
    forall i :: 0 <= i < |s| ==> IsSpace(s[i])
  }

  predicate StartsWith(s: string, prefix: string) {
    |prefix| <= |s| && s[..|prefix|] == prefix
  }

  predicate EndsWith(s: string, suffix: string) {
    |suffix| <= |s| && s[|s| - |suffix|..] == suffix
  }

  /** `c in s` for a single character. */
  predicate HasChar(s: string, c: char) {
    exists i :: 0 <= i < |s| && s[i] == c
  }

  /** Python's `s[:n]` for any integer `n`: a negative `n` counts from the end. */
  function Take<T>(s: seq<T>, n: int): (r: seq<T>)
    ensures n >= 0 ==> |r| == if n <= |s| then n else |s|
    ensures n < 0 ==> |r| == if |s| + n >= 0 then |s| + n else 0
    ensures r <= s
  {
    if n >= 0 then (if n <= |s| then s[..n] else s)
    else if |s| + n >= 0 then s[..|s| + n] else []
  }

  /** Python's `s[n:]` for a non-negative `n`. */
  function Drop<T>(s: seq<T>, n: nat): (r: seq<T>)
    ensures |r| == if n <= |s| then |s| - n else 0
    ensures n <= |s| ==> s == s[..n] + r
  {
    if n <= |s| then s[n..] else []
  }

  /** Positions listed in strictly increasing order: an order-preserving
      selection from a sequence. */
  predicate Increasing(idx: seq<nat>) {
    forall p, q :: 0 <= p < q < |idx| ==> idx[p] < idx[q]
  }

  /** Python's `[x] * n`: empty for any `n <= 0`. */
  function Repeat<T>(x: T, n: int): (r: seq<T>)
    ensures |r| == if n > 0 then n else 0
    ensures forall i :: 0 <= i < |r| ==> r[i] == x
    decreases if n > 0 then n else 0
  {
    if n <= 0 then [] else [x] + Repeat(x, n - 1)
  }

  /** Python's `s.rstrip()`. */
  function RStrip(s: string): (r: string)
    ensures r <= s
    ensures AllSpace(s[|r|..])
    ensures |r| > 0 ==> !IsSpace(r[|r| - 1])
  {
    if |s| > 0 && IsSpace(s[|s| - 1]) then RStrip(s[..|s| - 1]) else s
  }

  /** Python's `s.lstrip()`. */
  function LStrip(s: string): (r: string)
    ensures |r| <= |s| && r == s[|s| - |r|..]
    ensures AllSpace(s[..|s| - |r|])
    ensures |r| > 0 ==> !IsSpace(r[0])
  {
    if |s| > 0 && IsSpace(s[0]) then LStrip(s[1..]) else s
  }

  /** Where `s.strip()` ends: everything after it is whitespace. */
  function StripTo(s: string): (j: nat)
    ensures j <= |s| && AllSpace(s[j..])
  {
    |RStrip(s)|
  }

  /** Where `s.strip()` starts: everything before it is whitespace. */
  function StripFrom(s: string): (i: nat)
    ensures i <= StripTo(s) && AllSpace(s[..i])
  {
    var t := RStrip(s);
    var i := |t| - |LStrip(t)|;
    assert s[..i] == t[..i];
    i
  }

  /** Python's `s.strip()`: the slice of `s` left once the whitespace on
      both ends is removed. */
  function Strip(s: string): (r: string)
    ensures r == s[StripFrom(s)..StripTo(s)]
    ensures |r| > 0 ==> !IsSpace(r[0]) && !IsSpace(r[|r| - 1])
  {
    var t := RStrip(s);
    var r := LStrip(t);
    assert r == s[|t| - |r|..|t|];
    r
  }

  /** Text with no whitespace at either end is its own `strip()`. */
  lemma StripUnpadded(s: string)
    requires |s| > 0 ==> !IsSpace(s[0]) && !IsSpace(s[|s| - 1])
    ensures Strip(s) == s
  {
    assert RStrip(s) == s;
    assert LStrip(s) == s;
  }

  /** Python's `s.strip(c)` for one character `c`. */
  function StripChar(s: string, c: char): (r: string)
    ensures |r| <= |s|
    ensures |r| > 0 ==> r[0] != c && r[|r| - 1] != c
    decreases |s|
  {
    if |s| > 0 && s[0] == c then StripChar(s[1..], c)
    else if |s| > 0 && s[|s| - 1] == c then StripChar(s[..|s| - 1], c)
    else s
  }

  /** Python's `s.replace(pat, rep)` for a non-empty `pat`: non-overlapping
      occurrences are replaced, scanning from the left. */
  function Replace(s: string, pat: string, rep: string): (r: string)
    requires |pat| > 0
    decreases |s|
  {
    if |s| < |pat| then s
    else if s[..|pat|] == pat then rep + Replace(s[|pat|..], pat, rep)
    else [s[0]] + Replace(s[1..], pat, rep)
  }

  /** Replacing a single character by a text that does not contain it
      removes the character, and any other character is present afterwards
      exactly when it was present before or is part of the replacement. */
  lemma {:induction false} ReplaceCharMembership(s: string, c: char, rep: string, d: char)
    ensures HasChar(Replace(s, [c], rep), d) <==>
              (d != c && HasChar(s, d)) || (HasChar(s, c) && HasChar(rep, d))
    decreases |s|
  {
    var r := Replace(s, [c], rep);
    if |s| == 0 {
    } else {
      var tail := Replace(s[1..], [c], rep);
      ReplaceCharMembership(s[1..], c, rep, d);
      assert s == [s[0]] + s[1..];
      HasCharConcat([s[0]], s[1..], d);
      HasCharConcat([s[0]], s[1..], c);
      assert HasChar([s[0]], d) <==> s[0] == d by {
        if s[0] == d { assert [s[0]][0] == d; }
      }
      if s[0] == c {
        assert s[..1] == [c];
        assert r == rep + tail;
        HasCharConcat(rep, tail, d);
      } else {
        assert s[..1] != [c];
        assert r == [s[0]] + tail;
        HasCharConcat([s[0]], tail, d);
      }
    }
  }

  /** Replacing one character by one character keeps the length. */
  lemma {:induction false} ReplaceCharLength(s: string, c: char, d: char)
    ensures |Replace(s, [c], [d])| == |s|
    decreases |s|
  {
    if |s| > 0 {
      ReplaceCharLength(s[1..], c, d);
    }
  }

  /** Replacing a character that does not occur changes nothing. */
  lemma {:induction false} ReplaceAbsentChar(s: string, c: char, rep: string)
    requires !HasChar(s, c)
    ensures Replace(s, [c], rep) == s
    decreases |s|
  {
    if |s| > 0 {
      assert s[0] != c;
      assert s[..1] != [c];
      forall i | 0 <= i < |s| - 1
        ensures s[1..][i] != c
      {
        assert s[1..][i] == s[i + 1];
      }
      ReplaceAbsentChar(s[1..], c, rep);
      assert s == [s[0]] + s[1..];
    }
  }

  lemma HasCharConcat(a: string, b: string, c: char)
    ensures HasChar(a + b, c) <==> HasChar(a, c) || HasChar(b, c)
  {
    if HasChar(a + b, c) {
      var i :| 0 <= i < |a + b| && (a + b)[i] == c;
      if i >= |a| {
        assert b[i - |a|] == c;
      }
    }
    if HasChar(b, c) {
      var i :| 0 <= i < |b| && b[i] == c;
      assert (a + b)[|a| + i] == c;
    }
    if HasChar(a, c) {
      var i :| 0 <= i < |a| && a[i] == c;
      assert (a + b)[i] == c;
    }
  }

  /** Python's `s.split(sep)` for one separator character: always at least
      one part, and the parts joined with `sep` give back `s`. */
  function Split(s: string, sep: char): (parts: seq<string>)
    ensures |parts| >= 1
    ensures forall k, i :: 0 <= k < |parts| && 0 <= i < |parts[k]| ==> parts[k][i] != sep
    ensures JoinWith(parts, sep) == s
    decreases |s|
  {
    if |s| == 0 then [""]
    else if s[0] == sep then [""] + Split(s[1..], sep)
    else
      var rest := Split(s[1..], sep);
      assert JoinWith([[s[0]] + rest[0]] + rest[1..], sep) == [s[0]] + JoinWith(rest, sep) by {
        assert [[s[0]] + rest[0]] + rest[1..] == [[s[0]] + rest[0]] + rest[1..];
        if |rest| > 1 {
          assert ([[s[0]] + rest[0]] + rest[1..])[1..] == rest[1..];
        }
      }
      [[s[0]] + rest[0]] + rest[1..]
  }

  /** `sep.join(parts)`. */
  function JoinWith(parts: seq<string>, sep: char): string {
    if |parts| == 0 then ""
    else if |parts| == 1 then parts[0]
    else parts[0] + [sep] + JoinWith(parts[1..], sep)
  }

  /** `sep.join(parts)` for a separator of any length. */
  function JoinText(parts: seq<string>, sep: string): string {
    if |parts| == 0 then ""
    else if |parts| == 1 then parts[0]
    else parts[0] + sep + JoinText(parts[1..], sep)
  }

  /** Replacing a single character distributes over concatenation. */
  lemma {:induction false} ReplaceCharConcat(a: string, b: string, c: char, rep: string)
    ensures Replace(a + b, [c], rep) == Replace(a, [c], rep) + Replace(b, [c], rep)
    decreases |a|
  {
    if |a| == 0 {
      assert a + b == b;
    } else {
      assert (a + b)[..1] == a[..1];
      assert (a + b)[1..] == a[1..] + b;
      ReplaceCharConcat(a[1..], b, c, rep);
    }
  }

  /** Replacing the separator of a join in which no part contains it
      re-joins the parts with the replacement. */
  lemma {:induction false} ReplaceJoined(parts: seq<string>, c: char, rep: string)
    requires forall k :: 0 <= k < |parts| ==> !HasChar(parts[k], c)
    ensures Replace(JoinText(parts, [c]), [c], rep) == JoinText(parts, rep)
    decreases |parts|
  {
    if |parts| == 1 {
      ReplaceAbsentChar(parts[0], c, rep);
    } else if |parts| > 1 {
      ReplaceJoined(parts[1..], c, rep);
      ReplaceAbsentChar(parts[0], c, rep);
      ReplaceCharConcat(parts[0] + [c], JoinText(parts[1..], [c]), c, rep);
      ReplaceCharConcat(parts[0], [c], c, rep);
      assert Replace([c], [c], rep) == rep + Replace([], [c], rep);
    }
  }

  /** A character of a join comes from a part or from the separator. */
  lemma {:induction false} JoinTextChars(parts: seq<string>, sep: string, d: char)
    ensures HasChar(JoinText(parts, sep), d) ==>
              HasChar(sep, d) || exists k :: 0 <= k < |parts| && HasChar(parts[k], d)
    decreases |parts|
  {
    if |parts| > 1 {
      JoinTextChars(parts[1..], sep, d);
      HasCharConcat(parts[0] + sep, JoinText(parts[1..], sep), d);
      HasCharConcat(parts[0], sep, d);
      if exists k :: 0 <= k < |parts[1..]| && HasChar(parts[1..][k], d) {
        var k :| 0 <= k < |parts[1..]| && HasChar(parts[1..][k], d);
        assert HasChar(parts[k + 1], d);
      }
    }
  }

  /** `"".join(parts)`. */
  function Concat(parts: seq<string>): string {
    if |parts| == 0 then "" else parts[0] + Concat(parts[1..])
  }

  lemma ConcatAppend(a: seq<string>, b: seq<string>)
    ensures Concat(a + b) == Concat(a) + Concat(b)
  {
    if |a| > 0 {
      assert (a + b)[1..] == a[1..] + b;
      ConcatAppend(a[1..], b);
    } else {
      assert a + b == b;
    }
  }

  predicate IsAsciiUpper(c: char) { 'A' <= c <= 'Z' }
  predicate IsAsciiLower(c: char) { 'a' <= c <= 'z' }
  predicate IsAsciiDigit(c: char) { '0' <= c <= '9' }

  /** `c.isalnum()` restricted to ASCII. */
  predicate IsAlnum(c: char) {
    IsAsciiUpper(c) || IsAsciiLower(c) || IsAsciiDigit(c)
  }

  /** `c.lower()` restricted to ASCII: other characters are unchanged. */
  function LowerChar(c: char): (r: char)
    ensures IsAsciiUpper(c) ==> IsAsciiLower(r)
    ensures !IsAsciiUpper(c) ==> r == c
  {
    if IsAsciiUpper(c) then (c as int + 32) as char else c
  }

  /** `s.lower()` restricted to ASCII letters. */
  function Lower(s: string): (r: string)
    ensures |r| == |s|
    ensures forall i :: 0 <= i < |s| ==> r[i] == LowerChar(s[i])
  {
    seq(|s|, i requires 0 <= i < |s| => LowerChar(s[i]))
  }
}
