/**
 * Text post-processing of the python-pptx converter (pptx_impl.py):
 * removal of Markdown image lines (`_IMAGE_LINE_PATTERN`, `_strip_image_lines`),
 * the collapse of three or more newlines to two (`re.sub(r"\n{3,}", "\n\n")`)
 * and the final trim with one trailing newline.
 */
module PptxText {
  import opened Text

  /** There is a "](" strictly after the leading "![" and before the final
      character of `body`. */
  predicate HasLinkMiddle(body: string) {
    LinkMiddleFrom(body, 2)
  }

  /** There is a "](" at some index `p` or later with `p + 3 <= |body|`. */
  predicate LinkMiddleFrom(body: string, p: nat)
    decreases |body| - p
  {
    p + 3 <= |body| && ((body[p] == ']' && body[p + 1] == '(') || LinkMiddleFrom(body, p + 1))
  }

  /** One line (without its "\n") matches `^!\[.*\]\(.*\)` followed only by
      whitespace up to the end of the line. */
  predicate IsImageLine(line: string) {
    var body := line[..|line| - TrailingSpaces(line)];
    && StartsWith(body, "![")
    && |body| >= 5
    && body[|body| - 1] == ')'
    && HasLinkMiddle(body)
  }

  /** Number of whitespace-only lines at the start of `lines`. */
  function BlankLines(lines: seq<string>): (n: nat)
    ensures n <= |lines|
    ensures forall k | 0 <= k < n :: IsBlank(lines[k])
    ensures n < |lines| ==> !IsBlank(lines[n])
  {
    if lines != [] && IsBlank(lines[0]) then 1 + BlankLines(lines[1..]) else 0
  }

  /** The effect of `_IMAGE_LINE_PATTERN.sub("", text)` on the lines of `text`.
      A match starts at an image line and its trailing `\s*` runs on over the
      following whitespace-only lines; `$` then makes it stop just before the
      last newline of that run (or at the end of the text).  So an image line
      together with the blank lines after it turns into one empty line. */
  function RemoveImageLines(lines: seq<string>): (r: seq<string>)
    ensures |r| <= |lines|
    ensures |lines| >= 1 ==> |r| >= 1
    ensures forall k | 0 <= k < |r| :: !IsImageLine(r[k])
    ensures (forall k | 0 <= k < |lines| :: '\n' !in lines[k]) ==>
              forall k | 0 <= k < |r| :: '\n' !in r[k]
    decreases |lines|
  {
    if lines == [] then []
    else if IsImageLine(lines[0]) then
      var k := 1 + BlankLines(lines[1..]);
      assert forall j | 0 <= j < |lines[k..]| :: lines[k..][j] == lines[k + j];
      [""] + RemoveImageLines(lines[k..])
    else
      assert forall j | 0 <= j < |lines[1..]| :: lines[1..][j] == lines[1 + j];
      [lines[0]] + RemoveImageLines(lines[1..])
  }

  /** `_IMAGE_LINE_PATTERN.sub("", text)`. */
  function RemoveImages(text: string): string {
    Join("\n", RemoveImageLines(Split(text, '\n')))
  }

  /** `_strip_image_lines(text)`. */
  function StripImageLines(text: string): string {
    Strip(RemoveImages(text))
  }

  /** `re.sub(r"\n{3,}", "\n\n", s)`, read left to right: `run` newlines have
      just been emitted, and a newline is dropped once two are. */
  function CollapseFrom(s: string, run: nat): string
    requires run <= 2
    decreases |s|
  {
    if s == [] then ""
    else if s[0] == '\n' then
      if run == 2 then CollapseFrom(s[1..], 2) else "\n" + CollapseFrom(s[1..], run + 1)
    else [s[0]] + CollapseFrom(s[1..], 0)
  }

  /** `re.sub(r"\n{3,}", "\n\n", s)`. */
  function CollapseNewlines(s: string): string {
    CollapseFrom(s, 0)
  }

  /** The tail of `convert` (pptx_impl.py): drop image lines, collapse runs of
      newlines, strip, and end a non-empty result with one "\n". */
  function Finalize(joined: string): string {
    var x := Strip(CollapseNewlines(RemoveImages(joined)));
    if x == "" then "" else x + "\n"
  }

  /** `"\n\n\n" not in s`. */
  predicate NoTripleNewline(s: string) {
    forall i | 0 <= i < |s| - 2 :: !(s[i] == '\n' && s[i + 1] == '\n' && s[i + 2] == '\n')
  }

  /** Number of newlines at the end of `s`. */
  function TrailingNewlines(s: string): (n: nat)
    ensures n <= |s|
  {
    if s != [] && s[|s| - 1] == '\n' then 1 + TrailingNewlines(s[..|s| - 1]) else 0
  }

  /** The text's last character is a newline. */
  predicate EndsInNewline(s: string) {
    s != [] && s[|s| - 1] == '\n'
  }

  // ---------------------------------------------------------------------
  // Image lines

  /** Text without image lines passes through the substitution unchanged. */
  lemma {:induction false} RemoveImageLinesNoop(lines: seq<string>)
    requires forall k | 0 <= k < |lines| :: !IsImageLine(lines[k])
    ensures RemoveImageLines(lines) == lines
    decreases |lines|
  {
    if lines != [] {
      RemoveImageLinesNoop(lines[1..]);
    }
  }

  /** Removing image lines is idempotent: its output holds none. */
  lemma RemoveImagesIdempotent(text: string)
    ensures RemoveImages(RemoveImages(text)) == RemoveImages(text)
  {
    var lines := RemoveImageLines(Split(text, '\n'));
    SplitJoin(lines, '\n');
    RemoveImageLinesNoop(lines);
  }

  /** An image line is replaced by an empty line, and so is every blank line
      right after it; a following line with text is kept. */
  lemma ImageLineBecomesEmpty(img: string, blanks: seq<string>, next: string, rest: seq<string>)
    requires IsImageLine(img)
    requires forall k | 0 <= k < |blanks| :: IsBlank(blanks[k])
    requires !IsBlank(next) && !IsImageLine(next)
    ensures RemoveImageLines([img] + blanks + [next] + rest)
         == ["", next] + RemoveImageLines(rest)
  {
    var tail := [next] + rest;
    var lines := [img] + (blanks + tail);
    assert [img] + blanks + [next] + rest == lines;
    assert RemoveImageLines(lines) == [""] + RemoveImageLines(tail) by {
      assert lines[1..] == blanks + tail;
      BlankLinesPrefix(blanks, tail);
      assert lines[1 + |blanks|..] == tail;
      RemoveImageLinesOfImage(lines);
    }
    assert RemoveImageLines(tail) == [next] + RemoveImageLines(rest) by {
      assert tail[1..] == rest;
      RemoveImageLinesOfText(tail);
    }
    PairCons("", next, RemoveImageLines(rest));
  }

  /** A pair in front of a sequence is its two elements consed on it. Kept
      apart from its callers, which run out of resource with the step
      inline. */
  lemma PairCons<T>(a: T, b: T, s: seq<T>)
    ensures [a, b] + s == [a] + ([b] + s)
  {
    assert [a, b] == [a] + [b];
  }

  /** An image line and the blank lines after it become one empty line. */
  lemma RemoveImageLinesOfImage(lines: seq<string>)
    requires lines != [] && IsImageLine(lines[0])
    ensures RemoveImageLines(lines) == [""] + RemoveImageLines(lines[1 + BlankLines(lines[1..])..])
  {
  }

  /** Any other line is kept. */
  lemma RemoveImageLinesOfText(lines: seq<string>)
    requires lines != [] && !IsImageLine(lines[0])
    ensures RemoveImageLines(lines) == [lines[0]] + RemoveImageLines(lines[1..])
  {
  }

  lemma {:induction false} BlankLinesPrefix(blanks: seq<string>, rest: seq<string>)
    requires forall k | 0 <= k < |blanks| :: IsBlank(blanks[k])
    requires rest != [] && !IsBlank(rest[0])
    ensures BlankLines(blanks + rest) == |blanks|
    decreases |blanks|
  {
    if blanks != [] {
      BlankLinesPrefix(blanks[1..], rest);
      assert (blanks + rest)[1..] == blanks[1..] + rest;
    } else {
      assert blanks + rest == rest;
    }
  }

  /** The lines of `l + "\n" + rest` are `l` followed by the lines of `rest`. */
  lemma SplitLine(l: string, rest: string)
    requires '\n' !in l
    ensures Split(l + "\n" + rest, '\n') == [l] + Split(rest, '\n')
  {
    assert l + "\n" + rest == l + ['\n'] + rest;
    SplitConcat(l, '\n', rest);
  }

  /** A leading line that is not an image line survives the substitution. */
  lemma RemoveImagesKeepsLine(l: string, rest: string)
    requires '\n' !in l && !IsImageLine(l)
    ensures RemoveImages(l + "\n" + rest) == l + "\n" + RemoveImages(rest)
  {
    SplitLine(l, rest);
    var tail := Split(rest, '\n');
    assert ([l] + tail)[1..] == tail;
    var rl := RemoveImageLines(tail);
    assert RemoveImageLines([l] + tail) == [l] + rl;
    JoinConcat("\n", [l], rl);
  }

  /** Two leading lines that are not image lines survive the substitution. */
  lemma RemoveImagesKeepsTwoLines(l1: string, l2: string, rest: string)
    requires '\n' !in l1 && '\n' !in l2
    requires !IsImageLine(l1) && !IsImageLine(l2)
    ensures RemoveImages(l1 + "\n" + (l2 + "\n" + rest)) == l1 + "\n" + (l2 + "\n" + RemoveImages(rest))
  {
    RemoveImagesKeepsLine(l1, l2 + "\n" + rest);
    RemoveImagesKeepsLine(l2, rest);
  }

  // ---------------------------------------------------------------------
  // Newline runs

  lemma NoTripleAppend(p: string, c: char)
    requires NoTripleNewline(p)
    requires c == '\n' ==> TrailingNewlines(p) < 2
    ensures NoTripleNewline(p + [c])
  {
    var q := p + [c];
    if c == '\n' && |p| >= 2 && p[|p| - 1] == '\n' {
      assert p[..|p| - 1][|p| - 2] == p[|p| - 2];
      assert TrailingNewlines(p) == 1 + TrailingNewlines(p[..|p| - 1]);
    }
    forall i | 0 <= i < |q| - 2
      ensures !(q[i] == '\n' && q[i + 1] == '\n' && q[i + 2] == '\n')
    {
      if i < |p| - 2 {
        assert q[i] == p[i] && q[i + 1] == p[i + 1] && q[i + 2] == p[i + 2];
      }
    }
  }

  /** Reading on from a prefix that already has no "\n\n\n" and ends in `run`
      newlines never creates one. */
  lemma {:induction false} CollapseFromNoTriple(p: string, s: string, run: nat)
    requires run <= 2 && NoTripleNewline(p) && TrailingNewlines(p) == run
    ensures NoTripleNewline(p + CollapseFrom(s, run))
    decreases |s|
  {
    if s == [] {
      assert p + CollapseFrom(s, run) == p;
    } else if s[0] == '\n' && run == 2 {
      CollapseFromNoTriple(p, s[1..], 2);
    } else {
      var c := s[0];
      var run' := if c == '\n' then run + 1 else 0;
      var q := p + [c];
      NoTripleAppend(p, c);
      TrailingNewlinesAppend(p, c);
      CollapseFromNoTriple(q, s[1..], run');
      assert p + CollapseFrom(s, run) == q + CollapseFrom(s[1..], run') by {
        assert CollapseFrom(s, run) == [c] + CollapseFrom(s[1..], run');
        AppendAssoc(p, [c], CollapseFrom(s[1..], run'));
      }
    }
  }

  lemma TrailingNewlinesAppend(p: string, c: char)
    ensures TrailingNewlines(p + [c]) == if c == '\n' then TrailingNewlines(p) + 1 else 0
  {
    assert (p + [c])[..|p|] == p;
  }

  /** After the substitution the text holds no "\n\n\n". */
  lemma CollapseNewlinesNoTriple(s: string)
    ensures NoTripleNewline(CollapseNewlines(s))
  {
    CollapseFromNoTriple("", s, 0);
    assert "" + CollapseFrom(s, 0) == CollapseFrom(s, 0);
  }

  /** The substitution only drops newlines: every other character is kept, in
      order. */
  lemma {:induction false} CollapseKeepsText(s: string, run: nat)
    requires run <= 2
    ensures RemoveChar(CollapseFrom(s, run), '\n') == RemoveChar(s, '\n')
    decreases |s|
  {
    if s != [] {
      if s[0] == '\n' {
        if run == 2 {
          CollapseKeepsText(s[1..], 2);
        } else {
          CollapseKeepsText(s[1..], run + 1);
          assert ("\n" + CollapseFrom(s[1..], run + 1))[1..] == CollapseFrom(s[1..], run + 1);
        }
      } else {
        CollapseKeepsText(s[1..], 0);
        assert ([s[0]] + CollapseFrom(s[1..], 0))[1..] == CollapseFrom(s[1..], 0);
      }
    }
  }

  /** Number of newlines at the start of `s`. */
  function LeadingNewlines(s: string): (n: nat)
    ensures n <= |s|
    ensures forall i | 0 <= i < n :: s[i] == '\n'
  {
    if s != [] && s[0] == '\n' then 1 + LeadingNewlines(s[1..]) else 0
  }

  /** Text without "\n\n\n" starts with at most two newlines. */
  lemma NoTripleLeading(s: string)
    requires NoTripleNewline(s)
    ensures LeadingNewlines(s) <= 2
  {
    assert |s| < 3 || !(s[0] == '\n' && s[1] == '\n' && s[2] == '\n');
  }

  /** Text that has no "\n\n\n" is left unchanged by the substitution. */
  lemma {:induction false} CollapseFromNoop(s: string, run: nat)
    requires run <= 2 && NoTripleNewline(s) && run + LeadingNewlines(s) <= 2
    ensures CollapseFrom(s, run) == s
    decreases |s|
  {
    if s != [] {
      var t := s[1..];
      assert NoTripleNewline(t) by {
        forall i | 0 <= i < |t| - 2
          ensures !(t[i] == '\n' && t[i + 1] == '\n' && t[i + 2] == '\n')
        {
          assert t[i] == s[i + 1] && t[i + 1] == s[i + 2] && t[i + 2] == s[i + 3];
        }
      }
      if s[0] == '\n' {
        CollapseFromNoop(t, run + 1);
      } else {
        NoTripleLeading(t);
        CollapseFromNoop(t, 0);
      }
    }
  }

  /** The substitution is idempotent. */
  lemma CollapseNewlinesIdempotent(s: string)
    ensures CollapseNewlines(CollapseNewlines(s)) == CollapseNewlines(s)
  {
    var c := CollapseNewlines(s);
    CollapseNewlinesNoTriple(s);
    NoTripleLeading(c);
    CollapseFromNoop(c, 0);
  }

  /** A newline-free non-empty text is copied as is, after which no newline is
      pending. */
  lemma {:induction false} CollapseLine(l: string, z: string, run: nat)
    requires run <= 2 && l != [] && '\n' !in l
    ensures CollapseFrom(l + z, run) == l + CollapseFrom(z, 0)
    decreases |l|
  {
    var s := l + z;
    assert s[0] == l[0];
    assert s[1..] == l[1..] + z;
    if |l| == 1 {
      assert l[1..] + z == z;
    } else {
      CollapseLine(l[1..], z, 0);
    }
  }

  // ---------------------------------------------------------------------
  // The final result

  /** A substring of text without "\n\n\n" has none either. */
  lemma NoTripleInfix(s: string, i: nat, j: nat)
    requires i <= j <= |s| && NoTripleNewline(s)
    ensures NoTripleNewline(s[i..j])
  {
    var t := s[i..j];
    forall k | 0 <= k < |t| - 2
      ensures !(t[k] == '\n' && t[k + 1] == '\n' && t[k + 2] == '\n')
    {
      assert t[k] == s[i + k] && t[k + 1] == s[i + k + 1] && t[k + 2] == s[i + k + 2];
    }
  }

  /** The converter's output contains no "\n\n\n", does not start with
      whitespace, and when non-empty ends with exactly one "\n". */
  lemma FinalizeShape(joined: string)
    ensures NoTripleNewline(Finalize(joined))
    ensures var r := Finalize(joined);
      r != "" ==> !IsSpace(r[0]) && r[|r| - 1] == '\n' && |r| >= 2 && r[|r| - 2] != '\n'
  {
    var c := CollapseNewlines(RemoveImages(joined));
    CollapseNewlinesNoTriple(RemoveImages(joined));
    var x := Strip(c);
    NoTripleInfix(c, StripStart(c), StripEnd(c));
    if x != "" {
      assert IsSpace('\n');
      NoTripleAppend(x, '\n');
    }
  }

  /** Two non-empty newline-free lines and the newline after each are copied
      as is by the substitution. */
  lemma CollapseTwoLines(l1: string, l2: string, z: string)
    requires l1 != [] && '\n' !in l1 && l2 != [] && '\n' !in l2
    ensures CollapseFrom(l1 + ("\n" + (l2 + z)), 0) == l1 + ("\n" + (l2 + CollapseFrom(z, 0)))
  {
    var u := l2 + z;
    CollapseLine(l1, "\n" + u, 0);
    assert ("\n" + u)[1..] == u;
    CollapseLine(l2, z, 1);
  }

  /** Two leading lines that are not image lines pass both substitutions
      unchanged. */
  lemma CollapsedHeader(l1: string, l2: string, rest: string)
    requires l1 != [] && '\n' !in l1 && l2 != [] && '\n' !in l2
    requires !IsImageLine(l1) && !IsImageLine(l2)
    ensures CollapseNewlines(RemoveImages(l1 + "\n" + (l2 + "\n" + rest)))
      == (l1 + "\n" + l2) + CollapseFrom("\n" + RemoveImages(rest), 0)
  {
    var ri := RemoveImages(rest);
    var z := "\n" + ri;
    RemoveImagesKeepsTwoLines(l1, l2, rest);
    ConcatRegroup3(l2, "\n", ri);
    ConcatRegroup(l1, "\n", l2, z);
    CollapseTwoLines(l1, l2, z);
    ConcatRegroup(l1, "\n", l2, CollapseFrom(z, 0));
  }

  /** Regrouping a concatenation of three strings. Kept apart from its
      callers, which run out of resource with the step inline. */
  lemma ConcatRegroup3(a: string, b: string, c: string)
    ensures a + b + c == a + (b + c)
  {
  }

  /** Regrouping a concatenation of four strings. Kept apart from its
      callers, which run out of resource with the step inline. */
  lemma ConcatRegroup(a: string, b: string, c: string, d: string)
    ensures a + (b + (c + d)) == (a + b + c) + d
    ensures a + b + (c + d) == a + (b + (c + d))
  {
  }

  /** Empty text stays empty. */
  lemma FinalizeEmpty()
    ensures Finalize("") == ""
  {
    assert RemoveImages("") == "" by {
      assert Split("", '\n') == [""];
      assert RemoveImageLines([""]) == [""] by {
        assert !IsImageLine("");
      }
    }
  }

  /** Text whose substituted form starts with a line that neither starts nor
      ends with whitespace is converted to output starting with that line. */
  lemma FinalizeStartsWith(joined: string, head: string, w: string)
    requires head != [] && !IsSpace(head[0]) && !IsSpace(head[|head| - 1])
    requires CollapseNewlines(RemoveImages(joined)) == head + w
    ensures StartsWith(Finalize(joined), head)
  {
    StripKeepsPrefix(head, w);
    var x := Strip(head + w);
    assert (x + "\n")[..|head|] == x[..|head|];
  }

  /** When the joined text starts with two lines that are not image lines, the
      first starting and the second ending with a non-space character, the
      converter's output starts with those two lines. */
  lemma FinalizeKeepsHeader(l1: string, l2: string, rest: string)
    requires '\n' !in l1 && '\n' !in l2
    requires !IsImageLine(l1) && !IsImageLine(l2)
    requires l1 != [] && !IsSpace(l1[0])
    requires l2 != [] && !IsSpace(l2[|l2| - 1])
    ensures StartsWith(Finalize(l1 + "\n" + (l2 + "\n" + rest)), l1 + "\n" + l2)
  {
    CollapsedHeader(l1, l2, rest);
    var head := l1 + "\n" + l2;
    assert head[0] == l1[0] && head[|head| - 1] == l2[|l2| - 1];
    FinalizeStartsWith(l1 + "\n" + (l2 + "\n" + rest), head, CollapseFrom("\n" + RemoveImages(rest), 0));
  }

  /** A line that the clean-up keeps: text at both ends, not an image line. */
  predicate KeptLine(x: string) {
    x != [] && !IsSpace(x[0]) && !IsSpace(x[|x| - 1]) && !IsImageLine(x)
  }

  /** A line with text that is not an image line survives the image-line
      substitution. */
  lemma {:induction false} RemoveImageLinesKeeps(lines: seq<string>, x: string)
    requires x in lines && !IsBlank(x) && !IsImageLine(x)
    ensures x in RemoveImageLines(lines)
    decreases |lines|
  {
    if IsImageLine(lines[0]) {
      var m := 1 + BlankLines(lines[1..]);
      assert x in lines[m..] by {
        var k :| 0 <= k < |lines| && lines[k] == x;
        assert forall j | 1 <= j < m :: IsBlank(lines[j]) by {
          forall j | 1 <= j < m ensures IsBlank(lines[j]) { assert lines[1..][j - 1] == lines[j]; }
        }
        assert lines[m..][k - m] == x;
      }
      RemoveImageLinesKeeps(lines[m..], x);
      RemoveImageLinesOfImage(lines);
    } else {
      RemoveImageLinesOfText(lines);
      if x != lines[0] {
        assert x in lines[1..] by {
          var k :| 0 <= k < |lines| && lines[k] == x;
          assert lines[1..][k - 1] == x;
        }
        RemoveImageLinesKeeps(lines[1..], x);
      }
    }
  }

  /** Collapsing runs of newlines keeps any contained text without a
      newline. */
  lemma {:induction false} CollapseKeeps(s: string, x: string, run: nat)
    requires run <= 2 && Contains(s, x) && x != [] && '\n' !in x
    ensures Contains(CollapseFrom(s, run), x)
    decreases |s|
  {
    if StartsWith(s, x) {
      var z := s[|x|..];
      assert s == x + z;
      CollapseLine(x, z, run);
      ContainsPrefix(x, CollapseFrom(z, 0));
    } else {
      var run' := if s[0] != '\n' then 0 else if run == 2 then 2 else run + 1;
      var prefix := if s[0] == '\n' && run == 2 then "" else [s[0]];
      CollapseKeeps(s[1..], x, run');
      assert CollapseFrom(s, run) == prefix + CollapseFrom(s[1..], run');
      ContainsAfter(prefix, CollapseFrom(s[1..], run'), x);
    }
  }

  /** A line of the joined text that is not an image line and starts and
      ends with a non-space character reaches the converter's output. */
  lemma FinalizeKeepsLine(joined: string, x: string)
    requires x in Split(joined, '\n') && KeptLine(x)
    ensures Contains(Finalize(joined), x)
  {
    var lines := Split(joined, '\n');
    assert '\n' !in x;
    RemoveImageLinesKeeps(lines, x);
    var kept := RemoveImageLines(lines);
    var k :| 0 <= k < |kept| && kept[k] == x;
    JoinHasPart("\n", kept, k);
    var removed := RemoveImages(joined);
    CollapseKeeps(removed, x, 0);
    var collapsed := CollapseNewlines(removed);
    StripKeeps(collapsed, x);
    var y := Strip(collapsed);
    var i := ContainsIndex(y, x);
    ContainsBefore(y, "\n", x);
  }
  // ---------------------------------------------------------------------
  // The separator between slides

  /** Blank lines before a line with text are counted up to that line. */
  lemma {:induction false} BlankLinesAppend(a: seq<string>, q: seq<string>)
    requires q != [] && !IsBlank(q[0])
    ensures BlankLines(a + q) == BlankLines(a)
    decreases |a|
  {
    if a == [] {
      assert a + q == q;
    } else {
      assert (a + q)[0] == a[0];
      if IsBlank(a[0]) {
        assert (a + q)[1..] == a[1..] + q;
        BlankLinesAppend(a[1..], q);
      }
    }
  }

  /** The substitution works on the lines before a line with text and on the
      lines from it on separately: no match runs across a line with text. */
  lemma {:induction false} RemoveImageLinesAppend(p: seq<string>, q: seq<string>)
    requires q != [] && !IsBlank(q[0])
    ensures RemoveImageLines(p + q) == RemoveImageLines(p) + RemoveImageLines(q)
    decreases |p|
  {
    if p == [] {
      assert p + q == q;
    } else {
      var l := p + q;
      assert l[0] == p[0] && l[1..] == p[1..] + q;
      if IsImageLine(p[0]) {
        var m := 1 + BlankLines(p[1..]);
        assert RemoveImageLines(l) == [""] + RemoveImageLines(p[m..] + q) by {
          BlankLinesAppend(p[1..], q);
          assert l[m..] == p[m..] + q;
          RemoveImageLinesOfImage(l);
        }
        RemoveImageLinesOfImage(p);
        RemoveImageLinesAppend(p[m..], q);
        AppendAssoc([""], RemoveImageLines(p[m..]), RemoveImageLines(q));
      } else {
        assert RemoveImageLines(l) == [p[0]] + RemoveImageLines(p[1..] + q) by {
          RemoveImageLinesOfText(l);
        }
        RemoveImageLinesOfText(p);
        RemoveImageLinesAppend(p[1..], q);
        AppendAssoc([p[0]], RemoveImageLines(p[1..]), RemoveImageLines(q));
      }
    }
  }

  /** Text before a line with text and the text from that line on go through
      the image-line substitution separately. */
  lemma RemoveImagesAppend(a: string, b: string)
    requires !IsBlank(Split(b, '\n')[0])
    ensures RemoveImages(a + "\n" + b) == RemoveImages(a) + "\n" + RemoveImages(b)
  {
    assert a + "\n" + b == a + ['\n'] + b;
    SplitAppend(a, '\n', b);
    RemoveImageLinesAppend(Split(a, '\n'), Split(b, '\n'));
    JoinConcat("\n", RemoveImageLines(Split(a, '\n')), RemoveImageLines(Split(b, '\n')));
  }

  /** The `---` line of the separator part, the blank lines around it, and
      the heading and type line of the next slide, followed by `rest`. */
  function RuleThen(heading: string, typeLine: string, rest: string): string {
    "---" + ("\n" + ("\n" + ("\n" + (heading + ("\n" + (typeLine + ("\n" + rest)))))))
  }

  /** `RemoveImagesKeepsLine`, with the concatenation grouped to the right. */
  lemma RemoveImagesKeepsLineRight(l: string, rest: string)
    requires '\n' !in l && !IsImageLine(l)
    ensures RemoveImages(l + ("\n" + rest)) == l + ("\n" + RemoveImages(rest))
  {
    RemoveImagesKeepsLine(l, rest);
    AppendAssoc(l, "\n", rest);
    AppendAssoc(l, "\n", RemoveImages(rest));
  }

  lemma EmptyPrefix(s: string)
    ensures "" + s == s
  {
  }

  /** An empty line survives the image-line substitution. */
  lemma RemoveImagesEmptyLine(rest: string)
    ensures RemoveImages("\n" + rest) == "\n" + RemoveImages(rest)
  {
    var tail := "\n" + rest;
    var tail' := "\n" + RemoveImages(rest);
    assert RemoveImages("" + tail) == "" + tail' by {
      assert !IsImageLine("") by { assert !StartsWith("", "!["); }
      RemoveImagesKeepsLineRight("", rest);
    }
    EmptyPrefix(tail);
    EmptyPrefix(tail');
  }

  /** The `---` line survives the image-line substitution. */
  lemma RemoveImagesRuleLine(rest: string)
    ensures RemoveImages("---" + ("\n" + rest)) == "---" + ("\n" + RemoveImages(rest))
  {
    assert !IsImageLine("---") by {
      assert TrailingSpaces("---") == 0 by { assert !IsSpace('-'); }
    }
    RemoveImagesKeepsLineRight("---", rest);
  }

  /** The separator part and the two lines after it are no image lines. */
  lemma RemoveImagesRule(heading: string, typeLine: string, rest: string)
    requires '\n' !in heading && !IsImageLine(heading)
    requires '\n' !in typeLine && !IsImageLine(typeLine)
    ensures RemoveImages(RuleThen(heading, typeLine, rest)) == RuleThen(heading, typeLine, RemoveImages(rest))
  {
    var s1 := typeLine + ("\n" + rest);
    var s2 := heading + ("\n" + s1);
    RemoveImagesKeepsLineRight(typeLine, rest);
    RemoveImagesKeepsLineRight(heading, s1);
    RemoveImagesEmptyLine(s2);
    RemoveImagesEmptyLine("\n" + s2);
    RemoveImagesRuleLine("\n" + ("\n" + s2));
  }

  /** A character other than a newline ends every run, so the collapse
      restarts there whatever came before. */
  lemma {:induction false} CollapseBreak(u: string, w: string, run: nat)
    requires run <= 2 && w != [] && w[0] != '\n'
    ensures CollapseFrom(u + w, run) == CollapseFrom(u, run) + CollapseFrom(w, 0)
    decreases |u|
  {
    if u == [] {
      assert u + w == w;
    } else {
      var run' := if u[0] != '\n' then 0 else if run == 2 then 2 else run + 1;
      var head := if u[0] == '\n' && run == 2 then "" else [u[0]];
      assert (u + w)[0] == u[0] && (u + w)[1..] == u[1..] + w;
      CollapseBreak(u[1..], w, run');
      assert CollapseFrom(u + w, run) == head + CollapseFrom(u[1..] + w, run');
      assert CollapseFrom(u, run) == head + CollapseFrom(u[1..], run');
      AppendAssoc(head, CollapseFrom(u[1..], run'), CollapseFrom(w, 0));
    }
  }

  /** Text ending in a newline still ends in one after the collapse, given
      that the `run` newlines already counted were emitted by `p`. */
  lemma {:induction false} CollapseEndsNewline(p: string, s: string, run: nat)
    requires run <= 2 && run <= TrailingNewlines(p)
    requires EndsInNewline(s)
    ensures EndsInNewline(p + CollapseFrom(s, run))
    decreases |s|
  {
    var t := s[1..];
    if t == [] {
      assert s == "\n";
      if run == 2 {
        assert CollapseFrom(s, run) == [] && p + [] == p;
      } else {
        assert CollapseFrom(s, run) == "\n";
      }
    } else if s[0] == '\n' && run == 2 {
      assert EndsInNewline(t);
      assert CollapseFrom(s, run) == CollapseFrom(t, 2);
      CollapseEndsNewline(p, t, 2);
    } else {
      assert EndsInNewline(t);
      var next := if s[0] != '\n' then 0 else run + 1;
      var q := p + [s[0]];
      TrailingNewlinesAppend(p, s[0]);
      CollapseEndsNewline(q, t, next);
      assert CollapseFrom(s, run) == [s[0]] + CollapseFrom(t, next);
      AppendAssoc(p, [s[0]], CollapseFrom(t, next));
    }
  }

  /** One newline is copied while fewer than two precede it, and dropped
      otherwise. */
  lemma CollapseNewline(z: string, run: nat)
    requires run <= 2
    ensures CollapseFrom("\n" + z, run) == if run == 2 then CollapseFrom(z, 2) else "\n" + CollapseFrom(z, run + 1)
  {
    assert ("\n" + z)[0] == '\n' && ("\n" + z)[1..] == z;
  }

  /** The collapse turns the three newlines after `---` into two and copies
      the heading and the type line after them. */
  lemma CollapseRule(heading: string, typeLine: string, rest: string, run: nat)
    requires run <= 2
    requires heading != [] && '\n' !in heading && typeLine != [] && '\n' !in typeLine
    ensures CollapseFrom(RuleThen(heading, typeLine, rest), run)
      == "---" + ("\n" + ("\n" + (heading + ("\n" + (typeLine + CollapseFrom("\n" + rest, 0))))))
  {
    var s1 := typeLine + ("\n" + rest);
    var s2 := heading + ("\n" + s1);
    CollapseLine("---", "\n" + ("\n" + ("\n" + s2)), run);
    CollapseNewline("\n" + ("\n" + s2), 0);
    CollapseNewline("\n" + s2, 1);
    CollapseNewline(s2, 2);
    CollapseLine(heading, "\n" + s1, 2);
    CollapseNewline(s1, 0);
    CollapseLine(typeLine, "\n" + rest, 1);
  }

  /** Regroups the separator, the heading and the type line to the right, the
      way the collapse emits them. Kept apart from its caller, which runs out
      of resource with these steps inline. */
  lemma RuleRegroup(heading: string, typeLine: string, z: string)
    ensures "\n---\n\n" + heading + "\n" + typeLine + z
      == "\n" + ("---" + ("\n" + ("\n" + (heading + ("\n" + (typeLine + z))))))
  {
    var y := heading + ("\n" + (typeLine + z));
    AppendAssoc("\n---\n\n" + heading + "\n", typeLine, z);
    AppendAssoc("\n---\n\n" + heading, "\n", typeLine + z);
    AppendAssoc("\n---\n\n", heading, "\n" + (typeLine + z));
    assert "\n---\n\n" == "\n" + ("---" + ("\n" + "\n"));
    AppendAssoc("\n", "---" + ("\n" + "\n"), y);
    AppendAssoc("---", "\n" + "\n", y);
    AppendAssoc("\n", "\n", y);
  }

  /** The `---` line has text. */
  lemma RuleLineFirst(heading: string, typeLine: string, rest: string)
    ensures !IsBlank(Split(RuleThen(heading, typeLine, rest), '\n')[0])
  {
    var x := "\n" + ("\n" + (heading + ("\n" + (typeLine + ("\n" + rest)))));
    AppendAssoc("---", "\n", x);
    SplitLine("---", x);
    assert !IsSpace("---"[0]);
  }

  /** The image-line substitution leaves the separator part and the next
      slide's first two lines alone. */
  lemma RemoveImagesKeepsRule(first: string, middle: string, heading: string, typeLine: string, rest: string)
    requires '\n' !in first && !IsImageLine(first)
    requires '\n' !in heading && !IsImageLine(heading)
    requires '\n' !in typeLine && !IsImageLine(typeLine)
    ensures RemoveImages(first + "\n" + (middle + "\n" + RuleThen(heading, typeLine, rest)))
      == first + "\n" + (RemoveImages(middle) + "\n" + RuleThen(heading, typeLine, RemoveImages(rest)))
  {
    var b := RuleThen(heading, typeLine, rest);
    RuleLineFirst(heading, typeLine, rest);
    RemoveImagesKeepsLine(first, middle + "\n" + b);
    RemoveImagesAppend(middle, b);
    RemoveImagesRule(heading, typeLine, rest);
  }

  /** The collapse works on the text before the `---` line and on the text
      from it on separately, and the text before it keeps a final newline. */
  lemma CollapseKeepsRule(first: string, middle: string, heading: string, typeLine: string, rest: string)
    requires first != [] && '\n' !in first
    requires heading != [] && '\n' !in heading && typeLine != [] && '\n' !in typeLine
    ensures var c := CollapseFrom("\n" + middle + "\n", 0);
      && c != [] && c[|c| - 1] == '\n'
      && CollapseNewlines(first + "\n" + (middle + "\n" + RuleThen(heading, typeLine, rest)))
         == first + (c + ("---" + ("\n" + ("\n" + (heading + ("\n" + (typeLine + CollapseFrom("\n" + rest, 0))))))))
  {
    var u := "\n" + middle + "\n";
    var b := RuleThen(heading, typeLine, rest);
    assert first + "\n" + (middle + "\n" + b) == first + (u + b) by {
      AppendAssoc(first, "\n", middle + "\n" + b);
      AppendAssoc("\n", middle + "\n", b);
      AppendAssoc("\n", middle, "\n");
    }
    CollapseLine(first, u + b, 0);
    CollapseBreak(u, b, 0);
    CollapseRule(heading, typeLine, rest, 0);
    CollapseEndsNewline("", u, 0);
    EmptyPrefix(CollapseFrom(u, 0));
  }

  /** The output keeps the separator part between two slides, with the three
      newlines after `---` collapsed to two, followed by the next slide's
      heading and type line. */
  lemma FinalizeKeepsRule(first: string, middle: string, heading: string, typeLine: string, rest: string)
    requires first != [] && '\n' !in first && !IsImageLine(first) && !IsSpace(first[0])
    requires heading != [] && '\n' !in heading && !IsImageLine(heading)
    requires typeLine != [] && '\n' !in typeLine && !IsImageLine(typeLine) && !IsSpace(typeLine[|typeLine| - 1])
    ensures Contains(Finalize(first + "\n" + (middle + "\n" + RuleThen(heading, typeLine, rest))),
                     "\n---\n\n" + heading + "\n" + typeLine)
  {
    var joined := first + "\n" + (middle + "\n" + RuleThen(heading, typeLine, rest));
    var rm := RemoveImages(middle);
    var rr := RemoveImages(rest);
    RemoveImagesKeepsRule(first, middle, heading, typeLine, rest);
    CollapseKeepsRule(first, rm, heading, typeLine, rr);
    var c := CollapseFrom("\n" + rm + "\n", 0);
    var z := CollapseFrom("\n" + rr, 0);
    var tail := "---" + ("\n" + ("\n" + (heading + ("\n" + (typeLine + z)))));
    var collapsed := CollapseNewlines(RemoveImages(joined));
    assert collapsed == first + (c + tail);
    var before := c[..|c| - 1];
    var sub := "\n---\n\n" + heading + "\n" + typeLine;
    assert collapsed == (first + before) + sub + z by {
      assert c == before + "\n";
      RuleRegroup(heading, typeLine, z);
      AppendAssoc(before, "\n", tail);
      AppendAssoc(first, before, sub + z);
      AppendAssoc(first + before, sub, z);
    }
    StripKeepsInner(first + before, sub, z);
    ContainsBefore(Strip(collapsed), "\n", sub);
  }
}
