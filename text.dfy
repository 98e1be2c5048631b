/**
 * The parts of Python's `str` that the converters rely on: `isspace`/`strip`,
 * `lower`, `in`, `startswith`, `join`, `split`, `replace` and decimal
 * rendering of slide numbers.  Strings are sequences of characters.
 */
module Text {

  /** Python's `str.isspace()` on one character: what `strip()` removes and what
      the regex class `\s` matches. */
  predicate IsSpace(c: char) {
    || ('\t' <= c <= '\r')
    || ('\U{1C}' <= c <= ' ')
    || c == '\U{85}' || c == '\U{A0}' || c == '\U{1680}'
    || ('\U{2000}' <= c <= '\U{200A}')
    || c == '\U{2028}' || c == '\U{2029}' || c == '\U{202F}'
    || c == '\U{205F}' || c == '\U{3000}'
  }

  /** `not s.strip()`: the string holds only whitespace (or nothing). */
  predicate IsBlank(s: string) {
    forall i | 0 <= i < |s| :: IsSpace(s[i])
  }

  /** Number of whitespace characters at the start of `s`. */
  function LeadingSpaces(s: string): (n: nat)
    ensures n <= |s| && IsBlank(s[..n])
    ensures n < |s| ==> !IsSpace(s[n])
  {
    if s != [] && IsSpace(s[0]) then
      var m := LeadingSpaces(s[1..]);
      assert s[..m + 1] == [s[0]] + s[1..][..m];
      m + 1
    else 0
  }

  /** Number of whitespace characters at the end of `s`. */
  function TrailingSpaces(s: string): (n: nat)
    ensures n <= |s| && IsBlank(s[|s| - n..])
    ensures n < |s| ==> !IsSpace(s[|s| - n - 1])
  {
    if s != [] && IsSpace(s[|s| - 1]) then
      var init := s[..|s| - 1];
      var m := TrailingSpaces(init);
      assert s[|s| - (m + 1)..] == init[|init| - m..] + [s[|s| - 1]];
      m + 1
    else 0
  }

  /** Index where `strip()` starts keeping characters. */
  function StripStart(s: string): (i: nat)
    ensures i <= |s|
  {
    LeadingSpaces(s)
  }

  /** Index where `strip()` stops keeping characters. */
  function StripEnd(s: string): (j: nat)
    ensures StripStart(s) <= j <= |s|
  {
    |s| - TrailingSpaces(s[StripStart(s)..])
  }

  /** Python's `s.strip()`: the infix of `s` between its leading and its
      trailing whitespace. */
  function Strip(s: string): (r: string)
    ensures |r| <= |s|
    ensures r == [] <==> IsBlank(s)
    ensures r != [] ==> !IsSpace(r[0]) && !IsSpace(r[|r| - 1])
  {
    StripFacts(s);
    s[StripStart(s)..StripEnd(s)]
  }

  lemma StripFacts(s: string)
    ensures var r := s[StripStart(s)..StripEnd(s)];
      && (r == [] <==> IsBlank(s))
      && (r != [] ==> !IsSpace(r[0]) && !IsSpace(r[|r| - 1]))
  {
    var i := StripStart(s);
    var t := s[i..];
    var n := TrailingSpaces(t);
    var r := s[i..StripEnd(s)];
    assert r == t[..|t| - n];
    if i == |s| {
      assert s == s[..i];
    } else {
      assert !IsSpace(t[0]);
      assert n < |t|;
      assert r[0] == t[0];
      assert !IsBlank(s) by { assert !IsSpace(s[i]); }
    }
  }

  /** Python's `c.lower()` restricted to ASCII letters. */
  function LowerChar(c: char): char {
    if 'A' <= c <= 'Z' then (c as int + 32) as char else c
  }

  /** Python's `s.lower()` (ASCII letters only). */
  function Lower(s: string): (r: string)
    ensures |r| == |s|
    ensures forall i | 0 <= i < |s| :: r[i] == LowerChar(s[i])
  {
    seq(|s|, i requires 0 <= i < |s| => LowerChar(s[i]))
  }

  /** Python's `sub in s`. */
  predicate Contains(s: string, sub: string)
    decreases |s|
  {
    StartsWith(s, sub) || (s != [] && Contains(s[1..], sub))
  }

  /** Python's `s.startswith(p)`. */
  predicate StartsWith(s: string, p: string) {
    |p| <= |s| && s[..|p|] == p
  }

  /** Python's `sep.join(parts)`. */
  function Join(sep: string, parts: seq<string>): string
    decreases |parts|
  {
    if |parts| == 0 then ""
    else if |parts| == 1 then parts[0]
    else parts[0] + sep + Join(sep, parts[1..])
  }

  /** `s` repeated `n` times (Python's `s * n`). */
  function Repeat(s: string, n: nat): (r: string)
    ensures |r| == n * |s|
  {
    if n == 0 then "" else s + Repeat(s, n - 1)
  }

  /** Index of the first occurrence of `c` in `s`. */
  function IndexOf(s: string, c: char): (i: nat)
    requires c in s
    ensures i < |s| && s[i] == c && c !in s[..i]
  {
    if s[0] == c then 0
    else
      var k := IndexOf(s[1..], c);
      assert s[..k + 1] == [s[0]] + s[1..][..k];
      k + 1
  }

  /** Python's `s.split(c)` with a one-character separator: the pieces between
      occurrences of `c`, empty pieces included. */
  function Split(s: string, c: char): (r: seq<string>)
    ensures |r| >= 1
    ensures forall k | 0 <= k < |r| :: c !in r[k]
    decreases |s|
  {
    if c !in s then [s]
    else
      var i := IndexOf(s, c);
      [s[..i]] + Split(s[i + 1..], c)
  }

  /** Python's `s.replace(a, b)` for single characters. */
  function ReplaceChar(s: string, a: char, b: char): (r: string)
    ensures |r| == |s|
    ensures forall i | 0 <= i < |s| :: r[i] == (if s[i] == a then b else s[i])
  {
    seq(|s|, i requires 0 <= i < |s| => if s[i] == a then b else s[i])
  }

  /** Python's `s.replace(c, "")` for a single character. */
  function RemoveChar(s: string, c: char): (r: string)
    ensures c !in r
    ensures forall x | x != c :: (x in r <==> x in s)
  {
    if s == [] then ""
    else (if s[0] == c then "" else [s[0]]) + RemoveChar(s[1..], c)
  }

  predicate IsDigit(c: char) {
    '0' <= c <= '9'
  }

  function DigitChar(d: nat): (c: char)
    requires d < 10
    ensures IsDigit(c) && c as int - '0' as int == d
  {
    ('0' as int + d) as char
  }

  /** `str(n)` for a natural number: its decimal digits, most significant first. */
  function NatToString(n: nat): (r: string)
    ensures |r| >= 1 && IsDigit(r[0])
    ensures forall i | 0 <= i < |r| :: IsDigit(r[i])
    ensures n > 0 ==> r[0] != '0'
  {
    if n < 10 then [DigitChar(n)]
    else NatToString(n / 10) + [DigitChar(n % 10)]
  }

  // ---------------------------------------------------------------------
  // Lemmas

  /** `strip()` is idempotent. */
  lemma StripIdempotent(s: string)
    ensures Strip(Strip(s)) == Strip(s)
  {
    var r := Strip(s);
    if r != [] {
      assert LeadingSpaces(r) == 0;
      assert TrailingSpaces(r) == 0;
    }
  }

  /** A string that neither starts nor ends with whitespace is its own `strip()`. */
  lemma StripNoop(s: string)
    requires s == [] || (!IsSpace(s[0]) && !IsSpace(s[|s| - 1]))
    ensures Strip(s) == s
  {
    if s != [] {
      assert LeadingSpaces(s) == 0;
      assert TrailingSpaces(s) == 0;
    }
  }

  /** `strip()` keeps a prefix that starts and ends with a non-space character. */
  lemma StripKeepsPrefix(p: string, w: string)
    requires p != [] && !IsSpace(p[0]) && !IsSpace(p[|p| - 1])
    ensures StartsWith(Strip(p + w), p)
  {
    var s := p + w;
    assert LeadingSpaces(s) == 0;
    assert s[0..] == s;
    var t := TrailingSpaces(s);
    assert t <= |w| by {
      assert s[|p| - 1] == p[|p| - 1];
    }
    assert Strip(s) == s[..|s| - t];
    assert s[..|s| - t][..|p|] == p;
  }

  /** Python's `split` and `join` are inverse: joining the pieces with the
      separator gives back the string. */
  lemma {:induction false} JoinSplit(s: string, c: char)
    ensures Join([c], Split(s, c)) == s
    decreases |s|
  {
    if c in s {
      var i := IndexOf(s, c);
      var rest := s[i + 1..];
      JoinSplit(rest, c);
      assert Split(s, c) == [s[..i]] + Split(rest, c);
      assert s == s[..i] + [c] + rest;
    }
  }

  /** A string contains each of its prefixes. */
  lemma ContainsPrefix(p: string, w: string)
    ensures Contains(p + w, p)
  {
    assert (p + w)[..|p|] == p;
  }

  /** Text found in `y` is found in `x + y`. */
  lemma {:induction false} ContainsAfter(x: string, y: string, sub: string)
    requires Contains(y, sub)
    ensures Contains(x + y, sub)
    decreases |x|
  {
    if x == [] {
      assert x + y == y;
    } else {
      ContainsAfter(x[1..], y, sub);
      assert (x + y)[1..] == x[1..] + y;
    }
  }

  /** Every part occurs in the joined string. */
  lemma {:induction false} JoinHasPart(sep: string, parts: seq<string>, k: nat)
    requires k < |parts|
    ensures Contains(Join(sep, parts), parts[k])
    decreases |parts|
  {
    if |parts| == 1 {
      ContainsPrefix(parts[0], "");
      assert parts[0] + "" == parts[0];
    } else if k == 0 {
      ContainsPrefix(parts[0], sep + Join(sep, parts[1..]));
      assert Join(sep, parts) == parts[0] + (sep + Join(sep, parts[1..]));
    } else {
      JoinHasPart(sep, parts[1..], k - 1);
      ContainsAfter(parts[0] + sep, Join(sep, parts[1..]), parts[k]);
    }
  }

  /** A joined string starts with its first two parts and the separator
      between them. */
  lemma JoinStartsTwo(sep: string, parts: seq<string>)
    requires |parts| >= 2
    ensures StartsWith(Join(sep, parts), parts[0] + sep + parts[1])
  {
    var head := parts[0] + sep + parts[1];
    if |parts| == 2 {
      ContainsPrefix(head, "");
      assert Join(sep, parts) == head + "";
    } else {
      var tail := sep + Join(sep, parts[2..]);
      assert Join(sep, parts[1..]) == parts[1] + tail by {
        assert parts[1..][1..] == parts[2..];
      }
      ContainsPrefix(head, tail);
      assert Join(sep, parts) == head + tail;
    }
  }

  /** The first `c` of `a + [c] + b`, when `a` has none, is the one between
      them. */
  lemma IndexOfConcat(a: string, c: char, b: string)
    requires c !in a
    ensures var s := a + [c] + b; c in s && IndexOf(s, c) == |a| && s[..|a|] == a && s[|a| + 1..] == b
  {
    var s := a + [c] + b;
    assert s[|a|] == c;
    var i := IndexOf(s, c);
    assert forall k | 0 <= k < |a| :: s[k] == a[k];
    assert i <= |a| ==> i == |a|;
    assert s[..|a|] == a;
    assert s[|a| + 1..] == b;
  }

  /** A prefix one longer is the prefix followed by the next element. */
  lemma TakeSnoc<T>(s: seq<T>, i: nat)
    requires i < |s|
    ensures s[..i + 1] == s[..i] + [s[i]]
  {
  }

  /** A non-empty sequence is its initial part followed by its last element. */
  lemma InitLast<T>(s: seq<T>)
    requires s != []
    ensures s == s[..|s| - 1] + [s[|s| - 1]]
  {
  }

  /** Appending to a concatenation appends to its second part. Stated once
      so that long proofs regroup one step at a time instead of leaving the
      solver to search for the grouping. */
  lemma AppendAssoc<T>(a: seq<T>, b: seq<T>, c: seq<T>)
    ensures a + b + c == a + (b + c)
  {
  }

  /** Regrouping the last three of five concatenated strings. Kept apart
      from its callers, which run out of resource with the step inline. */
  lemma ConcatTail(a: string, b: string, c: string, d: string, e: string)
    ensures a + b + c + d + e == a + b + (c + d + e)
  {
  }

  /** Splitting `a + [c] + b` where `a` has no separator gives `a` first. */
  lemma SplitConcat(a: string, c: char, b: string)
    requires c !in a
    ensures Split(a + [c] + b, c) == [a] + Split(b, c)
  {
    var s := a + [c] + b;
    assert c in s by { assert s[|a|] == c; }
    var i := IndexOf(s, c);
    assert s[|a|] == c;
    assert forall k | 0 <= k < |a| :: s[k] == a[k] && s[k] != c;
    assert i <= |a| ==> i == |a|;
    assert s[..i] == a;
    assert s[i + 1..] == b;
  }

  /** The last piece of a split is the text after the last separator. */
  lemma {:induction false} SplitLast(a: string, c: char, b: string)
    requires c !in b
    ensures var r := Split(a + [c] + b, c); r[|r| - 1] == b
    decreases |a|
  {
    if c !in a {
      SplitConcat(a, c, b);
    } else {
      var s := a + [c] + b;
      var i := IndexOf(s, c);
      assert i < |a| by {
        var j := IndexOf(a, c);
        assert s[j] == c;
      }
      var r := Split(s[i + 1..], c);
      assert r[|r| - 1] == b by {
        assert s[i + 1..] == a[i + 1..] + [c] + b;
        SplitLast(a[i + 1..], c, b);
      }
      assert Split(s, c) == [s[..i]] + r;
    }
  }

  /** Splitting the join of separator-free pieces gives the pieces back. */
  lemma {:induction false} SplitJoin(parts: seq<string>, c: char)
    requires |parts| >= 1
    requires forall k | 0 <= k < |parts| :: c !in parts[k]
    ensures Split(Join([c], parts), c) == parts
    decreases |parts|
  {
    if |parts| > 1 {
      SplitJoin(parts[1..], c);
      SplitConcat(parts[0], c, Join([c], parts[1..]));
      assert parts == [parts[0]] + parts[1..];
    }
  }

  /** `Join` of a non-empty list followed by more pieces. */
  lemma {:induction false} JoinAppend(sep: string, parts: seq<string>, x: string)
    requires |parts| >= 1
    ensures Join(sep, parts + [x]) == Join(sep, parts) + sep + x
    decreases |parts|
  {
    if |parts| > 1 {
      JoinAppend(sep, parts[1..], x);
      assert (parts + [x])[1..] == parts[1..] + [x];
    }
  }

  /** `Join` over a concatenation of two non-empty lists. */
  lemma {:induction false} JoinConcat(sep: string, a: seq<string>, b: seq<string>)
    requires |a| >= 1 && |b| >= 1
    ensures Join(sep, a + b) == Join(sep, a) + sep + Join(sep, b)
    decreases |a|
  {
    if |a| == 1 {
      assert a + b == [a[0]] + b;
    } else {
      JoinConcat(sep, a[1..], b);
      assert (a + b)[1..] == a[1..] + b;
    }
  }

  /** A character that occurs neither in the separator nor in any piece does
      not occur in the joined text. */
  lemma {:induction false} JoinFree(sep: string, parts: seq<string>, c: char)
    requires c !in sep
    requires forall k | 0 <= k < |parts| :: c !in parts[k]
    ensures c !in Join(sep, parts)
    decreases |parts|
  {
    if |parts| > 1 {
      JoinFree(sep, parts[1..], c);
    }
  }

  /** Joining with a blank separator is blank exactly when every piece is. */
  lemma {:induction false} JoinBlank(sep: string, parts: seq<string>)
    requires IsBlank(sep)
    ensures IsBlank(Join(sep, parts)) <==> forall k | 0 <= k < |parts| :: IsBlank(parts[k])
    decreases |parts|
  {
    if |parts| > 1 {
      JoinBlank(sep, parts[1..]);
      var tail := Join(sep, parts[1..]);
      var s := parts[0] + sep + tail;
      assert IsBlank(s) <==> IsBlank(parts[0]) && IsBlank(sep) && IsBlank(tail) by {
        if IsBlank(s) {
          assert forall i | 0 <= i < |parts[0]| :: s[i] == parts[0][i];
          assert forall i | 0 <= i < |tail| :: s[|parts[0]| + |sep| + i] == tail[i];
        }
      }
      assert forall k | 1 <= k < |parts| :: parts[k] == parts[1..][k - 1];
    }
  }

  /** Two strings of equal length with whitespace at the same positions. */
  predicate SameSpaces(a: string, b: string) {
    |a| == |b| && forall i | 0 <= i < |a| :: IsSpace(a[i]) == IsSpace(b[i])
  }

  lemma {:induction false} SameSpacesLeading(a: string, b: string)
    requires SameSpaces(a, b)
    ensures LeadingSpaces(a) == LeadingSpaces(b)
    decreases |a|
  {
    if a != [] {
      SameSpacesLeading(a[1..], b[1..]);
    }
  }

  lemma {:induction false} SameSpacesTrailing(a: string, b: string)
    requires SameSpaces(a, b)
    ensures TrailingSpaces(a) == TrailingSpaces(b)
    decreases |a|
  {
    if a != [] {
      SameSpacesTrailing(a[..|a| - 1], b[..|b| - 1]);
    }
  }

  /** Lower-casing does not change whether a character is whitespace, so it
      commutes with `strip()`. */
  lemma LowerStripCommute(s: string)
    ensures Lower(Strip(s)) == Strip(Lower(s))
  {
    var l := Lower(s);
    var i := LeadingSpaces(s);
    assert LeadingSpaces(l) == i by {
      SameSpacesLeading(s, l);
    }
    assert TrailingSpaces(l[i..]) == TrailingSpaces(s[i..]) by {
      SameSpacesTrailing(s[i..], l[i..]);
    }
    var j := StripEnd(s);
    assert StripEnd(l) == j;
    LowerSlice(s, i, j);
  }

  /** Lower-casing commutes with taking a slice. */
  lemma LowerSlice(s: string, i: nat, j: nat)
    requires i <= j <= |s|
    ensures Lower(s[i..j]) == Lower(s)[i..j]
  {
  }

  /** A string without upper-case ASCII letters is its own lower case. */
  lemma LowerNoop(s: string)
    requires forall i | 0 <= i < |s| :: !('A' <= s[i] <= 'Z')
    ensures Lower(s) == s
  {
  }

  /** Lower-casing twice is lower-casing once. */
  lemma LowerIdempotent(s: string)
    ensures Lower(Lower(s)) == Lower(s)
  {
  }

  /** Splitting at a character splits the text on each side of one
      occurrence of it separately. */
  lemma {:induction false} SplitAppend(a: string, c: char, b: string)
    ensures Split(a + [c] + b, c) == Split(a, c) + Split(b, c)
    decreases |a|
  {
    if c !in a {
      SplitConcat(a, c, b);
    } else {
      var i := IndexOf(a, c);
      var a1, a2 := a[..i], a[i + 1..];
      assert Split(a + [c] + b, c) == [a1] + Split(a2 + [c] + b, c) && Split(a, c) == [a1] + Split(a2, c) by {
        assert a == a1 + [c] + a2;
        SplitFirst(a1, c, a2, b);
      }
      assert Split(a2 + [c] + b, c) == Split(a2, c) + Split(b, c) by {
        SplitAppend(a2, c, b);
      }
      AppendAssoc([a1], Split(a2, c), Split(b, c));
    }
  }

  /** Both `a1 + [c] + a2` and `a1 + [c] + a2 + [c] + b` split first at the
      `c` after `a1`. */
  lemma SplitFirst(a1: string, c: char, a2: string, b: string)
    requires c !in a1
    ensures Split(a1 + [c] + a2, c) == [a1] + Split(a2, c)
    ensures Split(a1 + [c] + a2 + [c] + b, c) == [a1] + Split(a2 + [c] + b, c)
  {
    SplitConcat(a1, c, a2);
    assert a1 + [c] + a2 + [c] + b == a1 + [c] + (a2 + [c] + b);
    SplitConcat(a1, c, a2 + [c] + b);
  }

  /** Every line of one part is a line of the parts joined by newlines. */
  lemma {:induction false} SplitJoinMember(parts: seq<string>, k: nat, line: string)
    requires k < |parts| && line in Split(parts[k], '\n')
    ensures line in Split(Join("\n", parts), '\n')
    decreases |parts|
  {
    if |parts| > 1 {
      var rest := Join("\n", parts[1..]);
      assert Join("\n", parts) == parts[0] + ['\n'] + rest;
      SplitAppend(parts[0], '\n', rest);
      if k > 0 {
        SplitJoinMember(parts[1..], k - 1, line);
      }
    }
  }

  /** A part without a newline is one line of the joined parts. */
  lemma JoinedLine(parts: seq<string>, k: nat)
    requires k < |parts| && '\n' !in parts[k]
    ensures parts[k] in Split(Join("\n", parts), '\n')
  {
    assert Split(parts[k], '\n') == [parts[k]];
    SplitJoinMember(parts, k, parts[k]);
  }

  /** Text found at index `i` of `s` is contained in `s`. */
  lemma {:induction false} ContainsAt(s: string, sub: string, i: nat)
    requires i + |sub| <= |s|
    requires forall k | 0 <= k < |sub| :: s[i + k] == sub[k]
    ensures Contains(s, sub)
    decreases i
  {
    if i == 0 {
      assert s[..|sub|] == sub;
    } else {
      assert forall k | 0 <= k < |sub| :: s[1..][i - 1 + k] == sub[k];
      ContainsAt(s[1..], sub, i - 1);
    }
  }

  /** An index at which contained text occurs. */
  lemma {:induction false} ContainsIndex(s: string, sub: string) returns (i: nat)
    requires Contains(s, sub)
    ensures i + |sub| <= |s| && s[i..i + |sub|] == sub
    decreases |s|
  {
    if StartsWith(s, sub) {
      i := 0;
    } else {
      var j := ContainsIndex(s[1..], sub);
      assert s[1..][j..j + |sub|] == s[j + 1..j + 1 + |sub|];
      i := j + 1;
    }
  }

  /** Text found in `y` is found in `y + w`. */
  lemma ContainsBefore(y: string, w: string, sub: string)
    requires Contains(y, sub)
    ensures Contains(y + w, sub)
  {
    var i := ContainsIndex(y, sub);
    assert forall k | 0 <= k < |sub| :: (y + w)[i + k] == sub[k] by {
      forall k | 0 <= k < |sub| ensures (y + w)[i + k] == sub[k] {
        assert y[i..i + |sub|][k] == y[i + k];
      }
    }
    ContainsAt(y + w, sub, i);
  }

  /** Cutting blank text off both ends keeps any contained text that starts
      and ends with a non-space character. */
  lemma SliceKeeps(s: string, sub: string, a: nat, e: nat)
    requires a <= e <= |s|
    requires forall j | 0 <= j < a :: IsSpace(s[j])
    requires forall j | e <= j < |s| :: IsSpace(s[j])
    requires Contains(s, sub) && sub != [] && !IsSpace(sub[0]) && !IsSpace(sub[|sub| - 1])
    ensures Contains(s[a..e], sub)
  {
    var i := ContainsIndex(s, sub);
    var n := |sub|;
    assert a <= i && i + n <= e by {
      assert s[i..i + n][0] == s[i] && s[i..i + n][n - 1] == s[i + n - 1];
      assert !IsSpace(s[i]) && !IsSpace(s[i + n - 1]);
    }
    var r := s[a..e];
    var off := i - a;
    assert off + n <= |r|;
    forall k | 0 <= k < n ensures r[off + k] == sub[k] {
      assert s[i..i + n][k] == s[i + k];
    }
    ContainsAt(r, sub, off);
  }

  /** The leading spaces are spaces, index by index. */
  lemma LeadingBlank(s: string)
    ensures forall j | 0 <= j < LeadingSpaces(s) :: IsSpace(s[j])
  {
    var n := LeadingSpaces(s);
    forall j | 0 <= j < n ensures IsSpace(s[j]) { assert s[..n][j] == s[j]; }
  }

  /** The trailing spaces are spaces, index by index. */
  lemma TrailingBlank(s: string)
    ensures forall j | |s| - TrailingSpaces(s) <= j < |s| :: IsSpace(s[j])
  {
    var n := TrailingSpaces(s);
    forall j | |s| - n <= j < |s| ensures IsSpace(s[j]) { assert s[|s| - n..][j - (|s| - n)] == s[j]; }
  }

  /** `strip()` cuts a run of spaces off each end. */
  lemma StripBounds(s: string) returns (a: nat, e: nat)
    ensures a == StripStart(s) && e == StripEnd(s)
    ensures forall j | 0 <= j < a :: IsSpace(s[j])
    ensures forall j | e <= j < |s| :: IsSpace(s[j])
  {
    a := StripStart(s);
    e := StripEnd(s);
    LeadingBlank(s);
    TrailingBlank(s[a..]);
    forall j | e <= j < |s| ensures IsSpace(s[j]) { assert s[a..][j - a] == s[j]; }
  }

  /** `strip()` keeps any contained text that starts and ends with a
      non-space character. */
  lemma StripKeeps(s: string, sub: string)
    requires Contains(s, sub) && sub != [] && !IsSpace(sub[0]) && !IsSpace(sub[|sub| - 1])
    ensures Contains(Strip(s), sub)
  {
    var a, e := StripBounds(s);
    SliceKeeps(s, sub, a, e);
    assert Strip(s) == s[a..e];
  }
  /** `strip()` keeps text found at offset `p` when the string starts with a
      non-space character and the text ends with one. */
  lemma StripKeepsAt(s: string, sub: string, p: nat)
    requires p + |sub| <= |s| && forall k | 0 <= k < |sub| :: s[p + k] == sub[k]
    requires s != [] && !IsSpace(s[0]) && sub != [] && !IsSpace(sub[|sub| - 1])
    ensures Contains(Strip(s), sub)
  {
    var st, e := StripBounds(s);
    assert st == 0;
    assert p + |sub| <= e by {
      assert s[p + |sub| - 1] == sub[|sub| - 1];
    }
    var r := s[..e];
    forall k | 0 <= k < |sub| ensures r[p + k] == sub[k] {
      assert r[p + k] == s[p + k];
    }
    ContainsAt(r, sub, p);
    assert Strip(s) == r;
  }

  /** `strip()` keeps text that ends with a non-space character when the
      text before it starts with one. */
  lemma StripKeepsInner(a: string, sub: string, b: string)
    requires a != [] && !IsSpace(a[0]) && sub != [] && !IsSpace(sub[|sub| - 1])
    ensures Contains(Strip(a + sub + b), sub)
  {
    var s := a + sub + b;
    assert s[0] == a[0];
    forall k | 0 <= k < |sub| ensures s[|a| + k] == sub[k] {
    }
    StripKeepsAt(s, sub, |a|);
  }
}
