/**
 * The paragraph segmenter of the python-pptx converter (pptx_impl.py,
 * `_text_frame_to_structured_content`): consecutive level-0 paragraphs that
 * look like code are gathered into one fenced block, other paragraphs become
 * plain text or nested list items.
 */
module PptxParagraphs {
  import opened Text
  import PptxText

  /** A paragraph of a text frame: its text and its indentation level
      (`para.level or 0`). */
  datatype Paragraph = Paragraph(text: string, level: nat)

  // ---------------------------------------------------------------------
  // Code detection

  /** Number of non-whitespace characters at the start of `s`. */
  function LeadingNonSpaces(s: string): (n: nat)
    ensures n <= |s|
    ensures forall i | 0 <= i < n :: !IsSpace(s[i])
    ensures n < |s| ==> IsSpace(s[n])
  {
    if s != [] && !IsSpace(s[0]) then 1 + LeadingNonSpaces(s[1..]) else 0
  }

  /** `\w` (ASCII letters, digits and underscore). */
  predicate IsWordChar(c: char) {
    ('a' <= c <= 'z') || ('A' <= c <= 'Z') || ('0' <= c <= '9') || c == '_'
  }

  /** `kw\s+\S` (or `kw\s+\w` when `word`) at the start of `t`. */
  predicate KeywordThenText(t: string, kw: string, word: bool) {
    && StartsWith(t, kw)
    && var rest := t[|kw|..];
    && var k := LeadingSpaces(rest);
    && 1 <= k < |rest|
    && (word ==> IsWordChar(rest[k]))
  }

  /** `from\s+\S+\s+import` at the start of `t`. */
  predicate FromImport(t: string) {
    && StartsWith(t, "from")
    && var r1 := t[4..];
    && var k1 := LeadingSpaces(r1);
    && k1 >= 1
    && var r2 := r1[k1..];
    && var n := LeadingNonSpaces(r2);
    && n >= 1
    && var r3 := r2[n..];
    && var k2 := LeadingSpaces(r3);
    && k2 >= 1
    && StartsWith(r3[k2..], "import")
  }

  /** `\s{2,}\S` at the start of `t`. */
  predicate IndentThenText(t: string) {
    2 <= LeadingSpaces(t) < |t|
  }

  /** `_CODE_LINE_PATTERN.match(t) is not None`. */
  predicate CodePattern(t: string) {
    || FromImport(t)
    || KeywordThenText(t, "import", false)
    || KeywordThenText(t, "def", true)
    || KeywordThenText(t, "class", true)
    || IndentThenText(t)
  }

  /** `any(t.startswith(k) for k in ("from ", "import ", "def ", "class "))`. */
  predicate KeywordPrefix(t: string) {
    StartsWith(t, "from ") || StartsWith(t, "import ") || StartsWith(t, "def ") || StartsWith(t, "class ")
  }

  /** `looks_like_code` in `_text_frame_to_structured_content`. */
  predicate LooksLikeCode(t: string) {
    StartsWith(t, "  ") || KeywordPrefix(t) || CodePattern(t)
  }

  /** The indentation tests can never fire: the paragraph text has been
      stripped before it is tested. */
  lemma IndentationDead(t: string)
    requires Strip(t) == t
    ensures !StartsWith(t, "  ") && !IndentThenText(t)
  {
    if t != [] {
      assert !IsSpace(t[0]);
      assert |t| < 2 || t[..2][0] == t[0];
    }
  }

  /** Only the plain space counts as whitespace in `t`. */
  predicate OnlyPlainSpaces(t: string) {
    forall i | 0 <= i < |t| && IsSpace(t[i]) :: t[i] == ' '
  }

  /** The keyword `kw` followed by whitespace that can only be a plain space. */
  lemma KeywordSpace(t: string, kw: string)
    requires StartsWith(t, kw) && |kw| < |t| && IsSpace(t[|kw|]) && OnlyPlainSpaces(t)
    ensures StartsWith(t, kw + " ")
  {
    assert t[..|kw| + 1] == t[..|kw|] + [t[|kw|]];
  }

  /** `kw\s+` implies the prefix `kw + " "` when the only whitespace is the
      plain space. */
  lemma KeywordThenTextIsPrefix(t: string, kw: string, word: bool)
    requires KeywordThenText(t, kw, word) && OnlyPlainSpaces(t)
    ensures StartsWith(t, kw + " ")
  {
    assert t[|kw|..][0] == t[|kw|];
    KeywordSpace(t, kw);
  }

  /** `from\s+` implies the prefix "from " when the only whitespace is the
      plain space. */
  lemma FromImportIsPrefix(t: string)
    requires FromImport(t) && OnlyPlainSpaces(t)
    ensures StartsWith(t, "from ")
  {
    assert t[4..][0] == t[4];
    KeywordSpace(t, "from");
  }

  /** For a stripped text whose only whitespace is the plain space, code
      detection is exactly the four keyword prefixes: the regular expression
      adds only keywords followed by other whitespace, such as a tab. */
  lemma CodeDetectionIsKeywordPrefix(t: string)
    requires Strip(t) == t && OnlyPlainSpaces(t)
    ensures LooksLikeCode(t) <==> KeywordPrefix(t)
  {
    KeywordsWithSpace();
    IndentationDead(t);
    if FromImport(t) {
      FromImportIsPrefix(t);
    }
    if KeywordThenText(t, "import", false) {
      KeywordThenTextIsPrefix(t, "import", false);
    }
    if KeywordThenText(t, "def", true) {
      KeywordThenTextIsPrefix(t, "def", true);
    }
    if KeywordThenText(t, "class", true) {
      KeywordThenTextIsPrefix(t, "class", true);
    }
  }

  /** The code-line keywords with a space appended, as the literals the
      prefix test compares against. Kept apart from its callers, which run
      out of resource with the step inline. */
  lemma KeywordsWithSpace()
    ensures "from" + " " == "from "
    ensures "import" + " " == "import "
    ensures "def" + " " == "def "
    ensures "class" + " " == "class "
  {
  }

  /** A keyword followed by a tab is code for the regular expression though
      none of the keyword prefixes matches it. */
  lemma TabbedImportIsCode()
    ensures LooksLikeCode("import\tos") && !KeywordPrefix("import\tos")
  {
    var t := "import\tos";
    assert t[6..] == "\tos";
    assert LeadingSpaces("os") == 0;
    assert LeadingSpaces("\tos") == 1;
    assert t[..7][6] != "import "[6];
    assert t[..5][0] != "from "[0];
    assert t[..4][0] != "def "[0];
    assert t[..6][0] != "class "[0];
  }

  // ---------------------------------------------------------------------
  // Segmentation

  /** How the loop treats a paragraph. */
  datatype Kind = Blank | Code | Prose

  /** A paragraph as the loop sees it: its kind, its stripped text and its
      level. */
  datatype Line = Line(kind: Kind, text: string, level: nat)

  /** `text = (para.text or "").strip()`; a blank text is skipped, a level-0
      text that looks like code joins the pending code block, anything else
      is prose. */
  function Classify(p: Paragraph): (l: Line)
    ensures l.text == Strip(p.text) && l.level == p.level
    ensures l.kind == Blank <==> l.text == ""
    ensures l.kind == Code <==> l.text != "" && p.level == 0 && LooksLikeCode(l.text)
  {
    var t := Strip(p.text);
    Line(if t == "" then Blank else if p.level == 0 && LooksLikeCode(t) then Code else Prose, t, p.level)
  }

  function ClassifyAll(ps: seq<Paragraph>): (ls: seq<Line>)
    ensures |ls| == |ps|
    ensures forall i | 0 <= i < |ps| :: ls[i] == Classify(ps[i])
  {
    seq(|ps|, i requires 0 <= i < |ps| => Classify(ps[i]))
  }

  /** The texts of some lines. */
  function Texts(ls: seq<Line>): (ts: seq<string>)
    ensures |ts| == |ls|
  {
    if ls == [] then [] else [ls[0].text] + Texts(ls[1..])
  }

  /** Length of the maximal run of code lines at the start of `ls`. */
  function CodeRun(ls: seq<Line>): (n: nat)
    ensures n <= |ls|
    ensures forall k | 0 <= k < n :: ls[k].kind == Code
    ensures n < |ls| ==> ls[n].kind != Code
  {
    if ls != [] && ls[0].kind == Code then
      assert forall k | 1 <= k < |ls| :: ls[k] == ls[1..][k - 1];
      1 + CodeRun(ls[1..])
    else 0
  }

  /** One entry of `parts`: a fenced code block or a text paragraph. */
  datatype Part = Fence(lines: seq<string>) | Item(text: string, level: nat)

  /** The string appended to `parts` for a part. */
  function Render(part: Part): string {
    match part
    case Fence(lines) => "```\n" + Join("\n", lines) + "\n```"
    case Item(text, level) => if level > 0 then Repeat("   ", level) + "- " + text else text
  }

  function Renders(parts: seq<Part>): (r: seq<string>)
    ensures |r| == |parts|
  {
    if parts == [] then [] else [Render(parts[0])] + Renders(parts[1..])
  }

  /** The parts of a text frame, read as maximal runs: each maximal run of
      code lines is one fence, a blank line is skipped, any other line is one
      item. */
  function Parts(ls: seq<Line>): seq<Part>
    decreases |ls|
  {
    if ls == [] then []
    else
      var n := CodeRun(ls);
      if n > 0 then [Fence(Texts(ls[..n]))] + Parts(ls[n..])
      else if ls[0].kind == Blank then Parts(ls[1..])
      else [Item(ls[0].text, ls[0].level)] + Parts(ls[1..])
  }

  /** `[p for p in parts if p.strip()]`. */
  function NonBlank(parts: seq<string>): (r: seq<string>)
    ensures forall k | 0 <= k < |r| :: !IsBlank(r[k])
  {
    if parts == [] then []
    else (if IsBlank(parts[0]) then [] else [parts[0]]) + NonBlank(parts[1..])
  }

  /** The result of `_text_frame_to_structured_content`. */
  function StructuredText(ps: seq<Paragraph>): string {
    Join("\n\n", NonBlank(Renders(Parts(ClassifyAll(ps)))))
  }

  /** The parts still to come when `buf` holds pending code lines and `rest`
      is unread. */
  function Pending(buf: seq<string>, rest: seq<Line>): seq<Part> {
    if buf == [] then Parts(rest)
    else
      var n := CodeRun(rest);
      [Fence(buf + Texts(rest[..n]))] + Parts(rest[n..])
  }

  /** `flush_code()`: close the pending code block, if there is one. */
  method Flush(parts: seq<string>, buf: seq<string>) returns (parts': seq<string>)
    ensures parts' == parts + Closed(buf)
  {
    parts' := parts;
    if buf != [] {
      var block := Join("\n", buf);
      parts' := parts' + ["```\n" + block + "\n```"];
    }
  }

  /** A blank line closes the pending code block and is skipped. */
  lemma PendingBlank(buf: seq<string>, rest: seq<Line>)
    requires rest != [] && rest[0].kind == Blank
    ensures Pending(buf, rest) == (if buf == [] then [] else [Fence(buf)]) + Pending([], rest[1..])
  {
    assert rest[..0] == [] && rest[0..] == rest;
    assert buf + Texts([]) == buf;
  }

  /** A code line joins the pending code block. */
  lemma PendingCode(buf: seq<string>, rest: seq<Line>)
    requires rest != [] && rest[0].kind == Code
    ensures Pending(buf, rest) == Pending(buf + [rest[0].text], rest[1..])
  {
    var n := CodeRun(rest);
    assert CodeRun(rest[1..]) == n - 1;
    assert rest[1..][n - 1..] == rest[n..];
    assert rest[..n][1..] == rest[1..][..n - 1];
    var t := rest[0].text;
    var more := Texts(rest[1..][..n - 1]);
    assert Texts(rest[..n]) == [t] + more;
    var after := Parts(rest[n..]);
    assert Pending(buf + [t], rest[1..]) == [Fence(buf + [t] + more)] + after;
    if buf == [] {
      assert Pending(buf, rest) == Parts(rest) == [Fence([t] + more)] + after;
      assert buf + [t] + more == [t] + more;
    } else {
      assert Pending(buf, rest) == [Fence(buf + ([t] + more))] + after;
      assert buf + ([t] + more) == buf + [t] + more;
    }
  }

  /** A prose line closes the pending code block and becomes an item. */
  lemma PendingProse(buf: seq<string>, rest: seq<Line>)
    requires rest != [] && rest[0].kind == Prose
    ensures Pending(buf, rest)
      == (if buf == [] then [] else [Fence(buf)]) + [Item(rest[0].text, rest[0].level)] + Pending([], rest[1..])
  {
    assert CodeRun(rest) == 0;
    assert Parts(rest) == [Item(rest[0].text, rest[0].level)] + Parts(rest[1..]);
    if buf != [] {
      assert rest[..0] == [] && rest[0..] == rest;
      assert buf + Texts([]) == buf;
    }
  }

  lemma {:induction false} RendersAppend(a: seq<Part>, b: seq<Part>)
    ensures Renders(a + b) == Renders(a) + Renders(b)
    decreases |a|
  {
    if a != [] {
      RendersAppend(a[1..], b);
      assert (a + b)[1..] == a[1..] + b;
    } else {
      assert a + b == b;
    }
  }

  /** The loop invariant of `StructuredContent`: the parts emitted so far,
      followed by the parts still to come, are the parts of the whole frame. */
  predicate EmittedParts(parts: seq<string>, buf: seq<string>, ls: seq<Line>, i: nat)
    requires i <= |ls|
  {
    parts + Renders(Pending(buf, ls[i..])) == Renders(Parts(ls))
  }

  /** The closing of the pending code block, as `parts` sees it. */
  function Closed(buf: seq<string>): seq<string> {
    if buf == [] then [] else [Render(Fence(buf))]
  }

  /** The closing part renders as `Closed`. */
  lemma RendersClosed(buf: seq<string>)
    ensures Renders(if buf == [] then [] else [Fence(buf)]) == Closed(buf)
  {
    if buf != [] {
      assert [Fence(buf)][1..] == [];
    }
  }

  lemma StepBlank(parts: seq<string>, buf: seq<string>, ls: seq<Line>, i: nat)
    requires i < |ls| && ls[i].kind == Blank && EmittedParts(parts, buf, ls, i)
    ensures EmittedParts(parts + Closed(buf), [], ls, i + 1)
  {
    var rest := ls[i..];
    assert rest[1..] == ls[i + 1..];
    var later := Pending([], ls[i + 1..]);
    var closed := if buf == [] then [] else [Fence(buf)];
    PendingBlank(buf, rest);
    RendersAppend(closed, later);
    RendersClosed(buf);
    assert parts + (Closed(buf) + Renders(later)) == (parts + Closed(buf)) + Renders(later);
  }

  lemma StepCode(parts: seq<string>, buf: seq<string>, ls: seq<Line>, i: nat)
    requires i < |ls| && ls[i].kind == Code && EmittedParts(parts, buf, ls, i)
    ensures EmittedParts(parts, buf + [ls[i].text], ls, i + 1)
  {
    var rest := ls[i..];
    assert rest[1..] == ls[i + 1..];
    PendingCode(buf, rest);
  }

  lemma StepProse(parts: seq<string>, buf: seq<string>, ls: seq<Line>, i: nat)
    requires i < |ls| && ls[i].kind == Prose && EmittedParts(parts, buf, ls, i)
    ensures EmittedParts(parts + Closed(buf) + [Render(Item(ls[i].text, ls[i].level))], [], ls, i + 1)
  {
    var rest := ls[i..];
    assert rest[1..] == ls[i + 1..];
    var later := Pending([], ls[i + 1..]);
    var closed := if buf == [] then [] else [Fence(buf)];
    var item := Item(ls[i].text, ls[i].level);
    var x := Closed(buf) + [Render(item)];
    assert Renders(Pending(buf, rest)) == x + Renders(later) by {
      PendingProse(buf, rest);
      RendersAppend(closed + [item], later);
      RendersAppend(closed, [item]);
      RendersClosed(buf);
      assert Renders([item]) == [Render(item)];
    }
    AppendAssoc(parts, x, Renders(later));
    AppendAssoc(parts, Closed(buf), [Render(item)]);
  }

  lemma StepEnd(parts: seq<string>, buf: seq<string>, ls: seq<Line>)
    requires EmittedParts(parts, buf, ls, |ls|)
    ensures parts + Closed(buf) == Renders(Parts(ls))
  {
    assert ls[|ls|..] == [];
    assert Pending(buf, []) == if buf == [] then [] else [Fence(buf)] by {
      assert buf + Texts([]) == buf;
    }
    RendersClosed(buf);
  }

  /** `_text_frame_to_structured_content`: one pass over the paragraphs with
      a buffer of pending code lines. */
  method StructuredContent(ps: seq<Paragraph>) returns (r: string)
    ensures r == StructuredText(ps)
  {
    ghost var ls := ClassifyAll(ps);
    var parts: seq<string> := [];
    var buf: seq<string> := [];
    for i := 0 to |ps|
      invariant EmittedParts(parts, buf, ls, i)
    {
      assert ls[i] == Classify(ps[i]);
      var text := Strip(ps[i].text);
      if text == "" {
        StepBlank(parts, buf, ls, i);
        parts := Flush(parts, buf);
        buf := [];
        continue;
      }
      var level := ps[i].level;
      var looksLikeCode := LooksLikeCode(text);
      if looksLikeCode && level == 0 {
        StepCode(parts, buf, ls, i);
        buf := buf + [text];
        continue;
      }
      StepProse(parts, buf, ls, i);
      parts := Flush(parts, buf);
      buf := [];
      if level > 0 {
        var indent := Repeat("   ", level);
        parts := parts + [indent + "- " + text];
      } else {
        parts := parts + [text];
      }
    }
    StepEnd(parts, buf, ls);
    parts := Flush(parts, buf);
    r := Join("\n\n", NonBlank(parts));
  }

  // ---------------------------------------------------------------------
  // Properties of the segmentation

  /** Lines as the loop sees them: only blank lines have blank text. */
  predicate WellFormed(ls: seq<Line>) {
    forall k | 0 <= k < |ls| :: ls[k].kind != Blank ==> !IsBlank(ls[k].text)
  }

  lemma ClassifyAllWellFormed(ps: seq<Paragraph>)
    ensures WellFormed(ClassifyAll(ps))
  {
  }

  /** The texts of the non-blank lines, in order. */
  function Words(ls: seq<Line>): seq<string> {
    if ls == [] then [] else (if ls[0].kind == Blank then [] else [ls[0].text]) + Words(ls[1..])
  }

  /** The texts a part holds. */
  function Contents(part: Part): seq<string> {
    match part
    case Fence(lines) => lines
    case Item(text, _) => [text]
  }

  function Flatten(parts: seq<Part>): seq<string> {
    if parts == [] then [] else Contents(parts[0]) + Flatten(parts[1..])
  }

  lemma {:induction false} WordsAppend(a: seq<Line>, b: seq<Line>)
    ensures Words(a + b) == Words(a) + Words(b)
    decreases |a|
  {
    if a == [] {
      assert a + b == b;
    } else {
      var ab := a + b;
      var head: seq<string> := if a[0].kind == Blank then [] else [a[0].text];
      assert ab[0] == a[0] && ab[1..] == a[1..] + b;
      assert Words(ab) == head + Words(a[1..] + b);
      WordsAppend(a[1..], b);
      AppendAssoc(head, Words(a[1..]), Words(b));
    }
  }

  lemma {:induction false} WordsOfCode(a: seq<Line>)
    requires forall k | 0 <= k < |a| :: a[k].kind == Code
    ensures Words(a) == Texts(a)
    decreases |a|
  {
    if a != [] {
      WordsOfCode(a[1..]);
    }
  }

  /** No paragraph text is lost or reordered: the parts hold exactly the
      non-blank paragraph texts, in their original order. */
  lemma {:induction false} PartsKeepText(ls: seq<Line>)
    ensures Flatten(Parts(ls)) == Words(ls)
    decreases |ls|
  {
    if ls != [] {
      var n := CodeRun(ls);
      if n > 0 {
        PartsKeepText(ls[n..]);
        assert ls == ls[..n] + ls[n..];
        WordsAppend(ls[..n], ls[n..]);
        WordsOfCode(ls[..n]);
        var parts := [Fence(Texts(ls[..n]))] + Parts(ls[n..]);
        assert parts[1..] == Parts(ls[n..]);
      } else {
        PartsKeepText(ls[1..]);
        if ls[0].kind != Blank {
          var parts := [Item(ls[0].text, ls[0].level)] + Parts(ls[1..]);
          assert parts[1..] == Parts(ls[1..]);
        }
      }
    }
  }

  /** A frame whose paragraphs are all code lines becomes one fenced block
      holding all of them. */
  lemma AllCodeOneFence(ls: seq<Line>)
    requires ls != [] && forall k | 0 <= k < |ls| :: ls[k].kind == Code
    ensures Parts(ls) == [Fence(Texts(ls))]
  {
    CodeRunAll(ls);
    assert ls[..|ls|] == ls;
    assert ls[|ls|..] == [];
  }

  lemma CodeRunAll(ls: seq<Line>)
    requires forall k | 0 <= k < |ls| :: ls[k].kind == Code
    ensures CodeRun(ls) == |ls|
  {
  }

  /** A frame without code lines becomes one item per non-blank paragraph,
      with its level. */
  lemma {:induction false} NoCodeItems(ls: seq<Line>)
    requires forall k | 0 <= k < |ls| :: ls[k].kind != Code
    ensures |Parts(ls)| == |Words(ls)|
    ensures forall k | 0 <= k < |Parts(ls)| :: Parts(ls)[k].Item?
    decreases |ls|
  {
    if ls != [] {
      NoCodeItems(ls[1..]);
    }
  }

  /** Every rendered part is non-blank, so the final `if p.strip()` filter
      never drops anything. */
  lemma {:induction false} PartsNonBlank(ls: seq<Line>)
    requires WellFormed(ls)
    ensures forall k | 0 <= k < |Parts(ls)| :: !IsBlank(Render(Parts(ls)[k]))
    decreases |ls|
  {
    if ls != [] {
      var n := CodeRun(ls);
      var tail := if n > 0 then ls[n..] else ls[1..];
      assert WellFormed(tail) by {
        forall k | 0 <= k < |tail| && tail[k].kind != Blank
          ensures !IsBlank(tail[k].text)
        {
          assert tail[k] == ls[k + (if n > 0 then n else 1)];
        }
      }
      PartsNonBlank(tail);
      if n > 0 {
        var f := Render(Fence(Texts(ls[..n])));
        assert f[0] == '`';
      } else if ls[0].kind != Blank {
        var it := Item(ls[0].text, ls[0].level);
        if ls[0].level > 0 {
          var r := Render(it);
          var pre := Repeat("   ", ls[0].level);
          assert r == pre + "- " + ls[0].text;
          assert r[|pre|] == '-';
        }
      }
    }
  }

  lemma {:induction false} NonBlankNoop(parts: seq<string>)
    requires forall k | 0 <= k < |parts| :: !IsBlank(parts[k])
    ensures NonBlank(parts) == parts
    decreases |parts|
  {
    if parts != [] {
      NonBlankNoop(parts[1..]);
    }
  }

  lemma {:induction false} RendersAt(parts: seq<Part>, k: nat)
    requires k < |parts|
    ensures Renders(parts)[k] == Render(parts[k])
    decreases |parts|
  {
    if k > 0 {
      RendersAt(parts[1..], k - 1);
    }
  }

  /** The result is the rendered parts joined with blank lines; the filter on
      whitespace-only parts has no effect. */
  lemma StructuredTextIsJoin(ps: seq<Paragraph>)
    ensures StructuredText(ps) == Join("\n\n", Renders(Parts(ClassifyAll(ps))))
  {
    var ls := ClassifyAll(ps);
    PartsNonBlank(ls);
    var rs := Renders(Parts(ls));
    forall k | 0 <= k < |rs|
      ensures !IsBlank(rs[k])
    {
      RendersAt(Parts(ls), k);
    }
    NonBlankNoop(rs);
  }
}
