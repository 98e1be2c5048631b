/**
 * Slide assembly of the python-pptx converter (pptx_impl.py, `convert`):
 * title and subtitle selection, the content segments of the shapes in
 * reading order, the per-slide Markdown block, the joined and cleaned-up
 * document; also `_structure_body_content` and the input checks.
 */
module PptxConvert {
  import opened Wrappers
  import opened Text
  import opened SlideTemplate
  import opened PptxText
  import PptxTable
  import PptxParagraphs
  import opened PptxShapes
  import Paths

  // ---------------------------------------------------------------------
  // Title and subtitle

  /** The two placeholder roles read before the content. */
  datatype Role = TitleRole | SubtitleRole

  /** TITLE/CENTER_TITLE/VERTICAL_TITLE for the title, SUBTITLE for the
      subtitle. */
  predicate HasRole(s: Shape, role: Role) {
    s.placeholder.Some? &&
    (if role == TitleRole then IsTitleKind(s.placeholder.value) else s.placeholder.value == SubtitlePh)
  }

  /** A placeholder of the role whose text is not blank. */
  predicate Candidate(s: Shape, role: Role) {
    HasRole(s, role) && s.text.Some? && !IsBlank(s.text.value)
  }

  /** The title (or subtitle) of a slide: the stripped text of the last
      candidate placeholder, none when there is no candidate. */
  function LastCandidate(shapes: seq<Shape>, role: Role): (r: Option<string>)
    ensures r.Some? ==> r.value != ""
    decreases |shapes|
  {
    if shapes == [] then None
    else if Candidate(shapes[|shapes| - 1], role) then Some(Strip(shapes[|shapes| - 1].text.value))
    else LastCandidate(shapes[..|shapes| - 1], role)
  }

  /** There is no title exactly when no placeholder of the role has a
      non-blank text. */
  lemma {:induction false} LastCandidateNone(shapes: seq<Shape>, role: Role)
    ensures LastCandidate(shapes, role).None? <==> forall i | 0 <= i < |shapes| :: !Candidate(shapes[i], role)
    decreases |shapes|
  {
    if shapes != [] {
      var init := shapes[..|shapes| - 1];
      LastCandidateNone(init, role);
      assert forall i | 0 <= i < |init| :: init[i] == shapes[i];
    }
  }

  /** Shape `i` is a candidate and no later shape is. */
  predicate LastOf(shapes: seq<Shape>, i: int, role: Role) {
    0 <= i < |shapes| && Candidate(shapes[i], role)
    && forall j | i < j < |shapes| :: !Candidate(shapes[j], role)
  }

  lemma LastOfExtend(shapes: seq<Shape>, i: int, role: Role)
    requires |shapes| > 0 && !Candidate(shapes[|shapes| - 1], role)
    requires LastOf(shapes[..|shapes| - 1], i, role)
    ensures LastOf(shapes, i, role)
  {
    var init := shapes[..|shapes| - 1];
    forall j | i < j < |shapes| ensures !Candidate(shapes[j], role) {
      if j < |init| { assert init[j] == shapes[j]; }
    }
  }

  /** A title is the stripped text of a candidate placeholder that no later
      candidate overrides. */
  lemma {:induction false} LastCandidateIsLast(shapes: seq<Shape>, role: Role)
    requires LastCandidate(shapes, role).Some?
    ensures exists i :: LastOf(shapes, i, role) && LastCandidate(shapes, role).value == Strip(shapes[i].text.value)
    decreases |shapes|
  {
    var n := |shapes| - 1;
    if Candidate(shapes[n], role) {
      assert LastOf(shapes, n, role);
    } else {
      var init := shapes[..n];
      LastCandidateIsLast(init, role);
      var i :| LastOf(init, i, role) && LastCandidate(init, role).value == Strip(init[i].text.value);
      LastOfExtend(shapes, i, role);
      assert init[i] == shapes[i];
    }
  }

  /** One more shape: a candidate replaces the title so far. */
  lemma LastCandidateStep(shapes: seq<Shape>, i: nat, role: Role)
    requires i < |shapes|
    ensures LastCandidate(shapes[..i + 1], role)
      == if Candidate(shapes[i], role) then Some(Strip(shapes[i].text.value)) else LastCandidate(shapes[..i], role)
  {
    assert shapes[..i + 1][..i] == shapes[..i];
  }

  /** Step 1 of the slide loop: scan the placeholders; a later non-blank
      title (subtitle) replaces an earlier one. */
  method SelectTitles(shapes: seq<Shape>) returns (title: Option<string>, subtitle: Option<string>)
    ensures title == LastCandidate(shapes, TitleRole)
    ensures subtitle == LastCandidate(shapes, SubtitleRole)
  {
    title := None;
    subtitle := None;
    for i := 0 to |shapes|
      invariant title == LastCandidate(shapes[..i], TitleRole)
      invariant subtitle == LastCandidate(shapes[..i], SubtitleRole)
    {
      LastCandidateStep(shapes, i, TitleRole);
      LastCandidateStep(shapes, i, SubtitleRole);
      var shape := shapes[i];
      if shape.placeholder.None? {
        continue;
      }
      var pph := shape.placeholder.value;
      if pph == TitlePh || pph == CenterTitlePh || pph == VerticalTitlePh {
        if shape.text.Some? && Strip(shape.text.value) != "" {
          title := Some(Strip(shape.text.value));
        }
      } else if pph == SubtitlePh {
        if shape.text.Some? && Strip(shape.text.value) != "" {
          subtitle := Some(Strip(shape.text.value));
        }
      }
    }
    assert shapes[..|shapes|] == shapes;
  }

  // ---------------------------------------------------------------------
  // Content segments

  /** `shape.text_frame.text`: the paragraph texts joined with "\n". */
  function FrameText(ps: seq<PptxParagraphs.Paragraph>): string {
    Join("\n", seq(|ps|, i requires 0 <= i < |ps| => ps[i].text))
  }

  /** `f"$${l}$$"` for every LaTeX string. */
  function MathBlocks(math: seq<string>): (r: seq<string>)
    ensures |r| == |math|
  {
    seq(|math|, i requires 0 <= i < |math| => "$$" + math[i] + "$$")
  }

  /** The structured text of a frame, followed by its display math. */
  function WithMath(structured: string, math: seq<string>): string {
    if math == [] then structured else structured + "\n\n" + Join("\n\n", MathBlocks(math))
  }

  /** `text` repeats the title or the subtitle. */
  predicate Repeats(text: string, title: Option<string>, subtitle: Option<string>) {
    (title.Some? && title.value != "" && text == title.value)
    || (subtitle.Some? && subtitle.value != "" && text == subtitle.value)
  }

  /** What one content shape adds to `content_segments`: a table, nothing for
      a picture, the structured text of a text frame (unless it is blank or
      repeats the title or subtitle), or the plain text of a shape without a
      frame. */
  function ShapeSegment(s: Shape, title: Option<string>, subtitle: Option<string>): Option<string> {
    if s.table.Some? then Some(PptxTable.TableText(s.table.value))
    else if s.isPicture then None
    else if s.frame.Some? then
      var text := Strip(FrameText(s.frame.value));
      if text == "" || Repeats(text, title, subtitle) then None
      else
        var structured := WithMath(PptxParagraphs.StructuredText(s.frame.value), s.math);
        if structured != "" then Some(structured) else None
    else if s.text.Some? && Strip(s.text.value) != "" then
      var text := StripImageLines(Strip(s.text.value));
      if text != "" && Some(text) != title && Some(text) != subtitle then Some(text) else None
    else None
  }

  /** `content_segments` for shapes in the given order. */
  function Segments(shapes: seq<Shape>, title: Option<string>, subtitle: Option<string>): seq<string>
    decreases |shapes|
  {
    if shapes == [] then []
    else
      var seg := ShapeSegment(shapes[|shapes| - 1], title, subtitle);
      Segments(shapes[..|shapes| - 1], title, subtitle) + (if seg.Some? then [seg.value] else [])
  }

  lemma SegmentsSnoc(pre: seq<Shape>, s: Shape, title: Option<string>, subtitle: Option<string>)
    ensures var seg := ShapeSegment(s, title, subtitle);
      Segments(pre + [s], title, subtitle) == Segments(pre, title, subtitle) + (if seg.Some? then [seg.value] else [])
  {
    assert (pre + [s])[..|pre|] == pre;
  }

  /** The body of step 2 of the slide loop for one shape: what it appends
      to `content_segments`. */
  method ShapeContent(shape: Shape, title: Option<string>, subtitle: Option<string>)
    returns (segment: Option<string>)
    ensures segment == ShapeSegment(shape, title, subtitle)
  {
    if shape.table.Some? {
      var md := PptxTable.TableToMarkdown(shape.table.value);
      return Some(md);
    }
    if shape.isPicture {
      return None;
    }
    if shape.frame.Some? {
      var text := Strip(FrameText(shape.frame.value));
      if text == "" {
        return None;
      }
      if (title.Some? && title.value != "" && text == title.value)
        || (subtitle.Some? && subtitle.value != "" && text == subtitle.value) {
        return None;
      }
      assert !Repeats(text, title, subtitle);
      var structured := PptxParagraphs.StructuredContent(shape.frame.value);
      if shape.math != [] {
        structured := structured + "\n\n" + Join("\n\n", MathBlocks(shape.math));
      }
      assert structured == WithMath(PptxParagraphs.StructuredText(shape.frame.value), shape.math);
      return if structured != "" then Some(structured) else None;
    }
    segment := None;
    if shape.text.Some? && Strip(shape.text.value) != "" {
      var text := StripImageLines(Strip(shape.text.value));
      if text != "" && Some(text) != title && Some(text) != subtitle {
        segment := Some(text);
      }
    }
  }

  /** Step 2 of the slide loop: the segment of every content shape, in
      order. */
  method ContentSegments(shapes: seq<Shape>, title: Option<string>, subtitle: Option<string>)
    returns (segments: seq<string>)
    ensures segments == Segments(shapes, title, subtitle)
  {
    segments := [];
    for i := 0 to |shapes|
      invariant segments == Segments(shapes[..i], title, subtitle)
    {
      TakeSnoc(shapes, i);
      SegmentsSnoc(shapes[..i], shapes[i], title, subtitle);
      var segment := ShapeContent(shapes[i], title, subtitle);
      if segment.Some? {
        segments := segments + [segment.value];
      }
    }
    assert shapes[..|shapes|] == shapes;
  }

  /** `_strip_image_lines(s).strip()` for every non-blank segment. */
  function CleanSegments(segments: seq<string>): seq<string>
    decreases |segments|
  {
    if segments == [] then []
    else
      (if IsBlank(segments[0]) then [] else [Strip(StripImageLines(segments[0]))])
      + CleanSegments(segments[1..])
  }

  /** `content_block`. */
  function ContentBlock(segments: seq<string>): string {
    Strip(Join("\n\n", CleanSegments(segments)))
  }

  // ---------------------------------------------------------------------
  // The slide block

  /** Python truthiness of an optional string. */
  predicate Truthy(s: Option<string>) {
    s.Some? && s.value != ""
  }

  /** An optional `**Label**: value` line, present when the value is
      truthy. */
  function Field(name: string, value: Option<string>): (lines: seq<string>)
    ensures lines != [] <==> Truthy(value)
    ensures lines != [] ==> lines == [name + value.value]
  {
    if Truthy(value) then [name + value.value] else []
  }

  /** The `### Content` section: heading, blank line, the content when there
      is any. */
  function ContentLines(content: string): (lines: seq<string>)
    ensures |lines| >= 2 && lines[..2] == ["### Content", ""]
  {
    if content != "" then ["### Content", "", content] else ["### Content", ""]
  }

  /** `block_lines` of one slide. */
  function BlockLines(index: nat, slideType: SlideType, hint: Option<string>,
                      title: Option<string>, subtitle: Option<string>, content: string): (lines: seq<string>)
    ensures |lines| >= 5 && lines[0] == Heading(index) && lines[1] == TypeLine(TypeName(slideType))
  {
    [Heading(index), TypeLine(TypeName(slideType))]
    + Field("**Layout**: ", hint) + Field("**Title**: ", title) + Field("**Subtitle**: ", subtitle)
    + [""] + ContentLines(content)
  }

  /** The block of the slide at `index`. */
  function SlideBlock(index: nat, slide: Slide): string {
    var title := LastCandidate(slide.shapes, TitleRole);
    var subtitle := LastCandidate(slide.shapes, SubtitleRole);
    var ordered := SortShapes(ContentShapes(slide.shapes));
    var content := ContentBlock(Segments(ordered, title, subtitle));
    Join("\n", BlockLines(index, SlideTypeFromLayoutName(slide.layoutName), LayoutHint(slide.layoutName),
                          title, subtitle, content))
  }

  function SlideBlocks(slides: seq<Slide>): (blocks: seq<string>)
    ensures |blocks| == |slides|
  {
    seq(|slides|, i requires 0 <= i < |slides| => SlideBlock(i, slides[i]))
  }

  /** The Markdown that `convert` returns for a deck (without the optional
      language-model polish). */
  function ConvertText(slides: seq<Slide>): string {
    Finalize(Join("\n", Interleave(SlideBlocks(slides))))
  }

  /** The slide loop of `convert` and the clean-up after it. */
  method ConvertSlides(slides: seq<Slide>) returns (result: string)
    ensures result == ConvertText(slides)
  {
    ghost var blocks := SlideBlocks(slides);
    var mdParts: seq<string> := [];
    for slideIdx := 0 to |slides|
      invariant mdParts == Emitted(blocks, slideIdx)
    {
      var slide := slides[slideIdx];
      var slideType := SlideTypeFromLayoutName(slide.layoutName);
      var layoutHint := LayoutHint(slide.layoutName);
      var title, subtitle := SelectTitles(slide.shapes);
      var contentShapes := ContentShapes(slide.shapes);
      contentShapes := SortShapes(contentShapes);
      var contentSegments := ContentSegments(contentShapes, title, subtitle);
      var contentBlock := ContentBlock(contentSegments);
      var blockLines := [Heading(slideIdx), TypeLine(TypeName(slideType))];
      ghost var head := blockLines;
      if layoutHint.Some? && layoutHint.value != "" {
        blockLines := blockLines + ["**Layout**: " + layoutHint.value];
      }
      assert blockLines == head + Field("**Layout**: ", layoutHint);
      head := blockLines;
      if title.Some? && title.value != "" {
        blockLines := blockLines + ["**Title**: " + title.value];
      }
      assert blockLines == head + Field("**Title**: ", title);
      head := blockLines;
      if subtitle.Some? && subtitle.value != "" {
        blockLines := blockLines + ["**Subtitle**: " + subtitle.value];
      }
      assert blockLines == head + Field("**Subtitle**: ", subtitle);
      blockLines := blockLines + [""];
      head := blockLines;
      if contentBlock != "" {
        blockLines := blockLines + ["### Content", "", contentBlock];
      } else {
        blockLines := blockLines + ["### Content", ""];
      }
      assert blockLines == head + ContentLines(contentBlock);
      assert blockLines == BlockLines(slideIdx, slideType, layoutHint, title, subtitle, contentBlock);
      EmittedStep(blocks, slideIdx);
      mdParts := mdParts + [Join("\n", blockLines)];
      if slideIdx < |slides| - 1 {
        mdParts := mdParts + [Separator];
      }
    }
    result := Join("\n", mdParts);
    result := RemoveImages(result);
    result := Strip(CollapseNewlines(result));
    result := if result != "" then result + "\n" else result;
  }

  // ---------------------------------------------------------------------
  // Properties of the converted document

  /** A deck without slides converts to the empty string. */
  lemma ConvertEmpty()
    ensures ConvertText([]) == ""
  {
    assert Join("\n", Interleave(SlideBlocks([]))) == "";
    FinalizeEmpty();
  }

  /** The document has no run of three newlines, starts with a non-space
      character and ends with exactly one newline (or is empty). */
  lemma ConvertShape(slides: seq<Slide>)
    ensures NoTripleNewline(ConvertText(slides))
    ensures var r := ConvertText(slides);
      r != "" ==> !IsSpace(r[0]) && r[|r| - 1] == '\n' && |r| >= 2 && r[|r| - 2] != '\n'
  {
    FinalizeShape(Join("\n", Interleave(SlideBlocks(slides))));
  }

  /** The joined lines of a block begin with its first two lines. */
  lemma JoinHead(lines: seq<string>)
    requires |lines| >= 3
    ensures Join("\n", lines) == lines[0] + "\n" + (lines[1] + "\n" + Join("\n", lines[2..]))
  {
    assert lines[1..][1..] == lines[2..];
  }

  /** The heading is one line of ASCII that is not an image line. */
  lemma HeadingLine(index: nat)
    ensures var h := Heading(index);
      '\n' !in h && !IsImageLine(h) && h != [] && !IsSpace(h[0])
  {
    var h := Heading(index);
    var digits := NatToString(index + 1);
    assert h == "## Slide " + digits;
    assert h[0] == '#';
    assert forall k | 9 <= k < |h| :: h[k] == digits[k - 9];
    assert '\n' !in h by {
      forall k | 0 <= k < |h| ensures h[k] != '\n' {
        if k >= 9 { assert IsDigit(digits[k - 9]); }
      }
    }
    var body := h[..|h| - TrailingSpaces(h)];
    assert !StartsWith(body, "![") by {
      if |body| >= 2 { assert body[0] == '#'; }
    }
  }

  /** The type line is one line that is not an image line and ends with a
      letter. */
  lemma TypeLineShape(t: SlideType)
    ensures var l := TypeLine(TypeName(t));
      '\n' !in l && !IsImageLine(l) && l != [] && !IsSpace(l[0]) && !IsSpace(l[|l| - 1])
  {
    var l := TypeLine(TypeName(t));
    assert l[0] == '*';
    var body := l[..|l| - TrailingSpaces(l)];
    assert !StartsWith(body, "![") by {
      if |body| >= 2 { assert body[0] == '*'; }
    }
  }

  /** The block of a slide begins with its heading and its type line. */
  lemma SlideBlockHead(index: nat, slide: Slide)
    ensures exists rest :: (SlideBlock(index, slide)
      == Heading(index) + "\n" + (TypeLine(TypeName(SlideTypeFromLayoutName(slide.layoutName))) + "\n" + rest))
  {
    var title := LastCandidate(slide.shapes, TitleRole);
    var subtitle := LastCandidate(slide.shapes, SubtitleRole);
    var content := ContentBlock(Segments(SortShapes(ContentShapes(slide.shapes)), title, subtitle));
    var lines := BlockLines(index, SlideTypeFromLayoutName(slide.layoutName), LayoutHint(slide.layoutName),
                            title, subtitle, content);
    JoinHead(lines);
  }

  /** Whatever follows the first block keeps the first block's head. Kept
      apart from its callers, which run out of resource with the step
      inline. */
  lemma AppendAfterHead(l1: string, l2: string, rest: string, after: string)
    ensures l1 + "\n" + (l2 + "\n" + rest) + after == l1 + "\n" + (l2 + "\n" + (rest + after))
  {
  }

  /** What follows the first block in the joined `md_parts`. */
  function AfterFirst(blocks: seq<string>): string
    requires |blocks| > 0
  {
    if |blocks| == 1 then "" else "\n" + Separator + "\n" + Join("\n" + Separator + "\n", blocks[1..])
  }

  /** The joined `md_parts` is the first block followed by the rest. */
  lemma JoinedFirstBlock(blocks: seq<string>)
    requires |blocks| > 0
    ensures Join("\n", Interleave(blocks)) == blocks[0] + AfterFirst(blocks)
  {
    JoinInterleave(blocks);
    JoinFirst("\n" + Separator + "\n", blocks);
  }

  /** A join is its first part followed by the separator and the join of the
      others, if any. */
  lemma JoinFirst(sep: string, parts: seq<string>)
    requires |parts| > 0
    ensures Join(sep, parts) == parts[0] + (if |parts| == 1 then "" else sep + Join(sep, parts[1..]))
  {
  }

  /** A non-empty deck's document begins with the heading and the type line of
      its first slide. */
  lemma ConvertStartsWithFirstSlide(slides: seq<Slide>)
    requires |slides| > 0
    ensures StartsWith(ConvertText(slides),
      Heading(0) + "\n" + TypeLine(TypeName(SlideTypeFromLayoutName(slides[0].layoutName))))
  {
    var blocks := SlideBlocks(slides);
    var t := SlideTypeFromLayoutName(slides[0].layoutName);
    var l1 := Heading(0);
    var l2 := TypeLine(TypeName(t));
    SlideBlockHead(0, slides[0]);
    var rest :| blocks[0] == l1 + "\n" + (l2 + "\n" + rest);
    JoinedFirstBlock(blocks);
    var after := AfterFirst(blocks);
    AppendAfterHead(l1, l2, rest, after);
    HeadingLine(0);
    TypeLineShape(t);
    FinalizeKeepsHeader(l1, l2, rest + after);
  }

  /** `### Content` is one line of text that is not an image line. */
  lemma ContentHeadingShape()
    ensures var l := "### Content";
      '\n' !in l && !IsImageLine(l) && l != [] && !IsSpace(l[0]) && !IsSpace(l[|l| - 1])
  {
    var l := "### Content";
    var body := l[..|l| - TrailingSpaces(l)];
    assert !StartsWith(body, "![") by {
      if |body| >= 2 { assert body[0] == '#'; }
    }
  }

  /** A `**Title**: ` line is not an image line. */
  lemma FieldLineShape(name: string, value: string)
    requires name == "**Title**: " && value != [] && !IsSpace(value[|value| - 1])
    ensures var l := name + value;
      !IsImageLine(l) && !IsSpace(l[0]) && !IsSpace(l[|l| - 1])
  {
    var l := name + value;
    assert l[0] == '*' && l[|l| - 1] == value[|value| - 1];
    var body := l[..|l| - TrailingSpaces(l)];
    assert !StartsWith(body, "![") by {
      if |body| >= 2 { assert body[0] == '*'; }
    }
  }

  /** The heading survives the clean-up: it also ends with a digit. */
  lemma HeadingKept(index: nat)
    ensures KeptLine(Heading(index))
  {
    HeadingLine(index);
    var h := Heading(index);
    var digits := NatToString(index + 1);
    assert h[|h| - 1] == digits[|digits| - 1];
  }

  /** The heading and the type line are lines of the joined block lines. */
  lemma BlockHeadLines(index: nat, t: SlideType, hint: Option<string>,
                       title: Option<string>, subtitle: Option<string>, content: string)
    ensures var block := Join("\n", BlockLines(index, t, hint, title, subtitle, content));
      Heading(index) in Split(block, '\n') && TypeLine(TypeName(t)) in Split(block, '\n')
  {
    var lines := BlockLines(index, t, hint, title, subtitle, content);
    HeadingLine(index);
    JoinedLine(lines, 0);
    TypeLineShape(t);
    JoinedLine(lines, 1);
  }

  /** `### Content` is a line of the joined block lines. */
  lemma BlockContentLine(index: nat, t: SlideType, hint: Option<string>,
                         title: Option<string>, subtitle: Option<string>, content: string)
    ensures "### Content" in Split(Join("\n", BlockLines(index, t, hint, title, subtitle, content)), '\n')
  {
    var lines := BlockLines(index, t, hint, title, subtitle, content);
    var head := [Heading(index), TypeLine(TypeName(t))] + Field("**Layout**: ", hint) + Field("**Title**: ", title)
      + Field("**Subtitle**: ", subtitle) + [""];
    assert lines == head + ContentLines(content);
    assert lines[|head|] == "### Content";
    ContentHeadingShape();
    JoinedLine(lines, |head|);
  }

  /** A one-line title gives a `**Title**: ` line of the joined block lines. */
  lemma BlockTitleLine(index: nat, t: SlideType, hint: Option<string>,
                       title: Option<string>, subtitle: Option<string>, content: string)
    requires Truthy(title) && '\n' !in title.value
    ensures "**Title**: " + title.value in Split(Join("\n", BlockLines(index, t, hint, title, subtitle, content)), '\n')
  {
    var lines := BlockLines(index, t, hint, title, subtitle, content);
    var k := 2 + |Field("**Layout**: ", hint)|;
    var line := "**Title**: " + title.value;
    assert lines[k] == line;
    assert '\n' !in line by {
      forall j | 0 <= j < |line| ensures line[j] != '\n' {
        if j >= 11 { assert line[j] == title.value[j - 11]; }
      }
    }
    JoinedLine(lines, k);
  }

  /** The heading, the type line, the `### Content` line and, when it is one
      line, the title line of a slide are lines of its block. */
  lemma SlideBlockLines(index: nat, slide: Slide)
    ensures var block := SlideBlock(index, slide);
      && Heading(index) in Split(block, '\n')
      && TypeLine(TypeName(SlideTypeFromLayoutName(slide.layoutName))) in Split(block, '\n')
      && "### Content" in Split(block, '\n')
    ensures var title := LastCandidate(slide.shapes, TitleRole);
      Truthy(title) && '\n' !in title.value ==> "**Title**: " + title.value in Split(SlideBlock(index, slide), '\n')
  {
    var title := LastCandidate(slide.shapes, TitleRole);
    var subtitle := LastCandidate(slide.shapes, SubtitleRole);
    var content := ContentBlock(Segments(SortShapes(ContentShapes(slide.shapes)), title, subtitle));
    var t := SlideTypeFromLayoutName(slide.layoutName);
    var hint := LayoutHint(slide.layoutName);
    BlockHeadLines(index, t, hint, title, subtitle, content);
    BlockContentLine(index, t, hint, title, subtitle, content);
    if Truthy(title) && '\n' !in title.value {
      BlockTitleLine(index, t, hint, title, subtitle, content);
    }
  }

  /** Every line of a slide block is a line of the joined `md_parts`. */
  lemma BlockLineJoined(blocks: seq<string>, i: nat, line: string)
    requires i < |blocks| && line in Split(blocks[i], '\n')
    ensures line in Split(Join("\n", Interleave(blocks)), '\n')
  {
    InterleaveAt(blocks, i);
    SplitJoinMember(Interleave(blocks), 2 * i, line);
  }

  /** A line of a slide block that is not an image line and starts and ends
      with a non-space character reaches the converter's output. */
  lemma ConvertKeepsLine(slides: seq<Slide>, i: nat, line: string)
    requires i < |slides| && line in Split(SlideBlock(i, slides[i]), '\n') && KeptLine(line)
    ensures Contains(ConvertText(slides), line)
  {
    var blocks := SlideBlocks(slides);
    assert blocks[i] == SlideBlock(i, slides[i]);
    BlockLineJoined(blocks, i, line);
    FinalizeKeepsLine(Join("\n", Interleave(blocks)), line);
  }

  /** Every slide's heading and type line, and a `### Content` line, survive
      the clean-up and reach the converter's output. */
  lemma ConvertKeepsSlides(slides: seq<Slide>, i: nat)
    requires i < |slides|
    ensures Contains(ConvertText(slides), Heading(i))
    ensures Contains(ConvertText(slides), TypeLine(TypeName(SlideTypeFromLayoutName(slides[i].layoutName))))
    ensures Contains(ConvertText(slides), "### Content")
  {
    var t := SlideTypeFromLayoutName(slides[i].layoutName);
    assert Contains(ConvertText(slides), Heading(i)) by {
      SlideBlockLines(i, slides[i]);
      HeadingKept(i);
      ConvertKeepsLine(slides, i, Heading(i));
    }
    assert Contains(ConvertText(slides), TypeLine(TypeName(t))) by {
      SlideBlockLines(i, slides[i]);
      TypeLineShape(t);
      ConvertKeepsLine(slides, i, TypeLine(TypeName(t)));
    }
    assert Contains(ConvertText(slides), "### Content") by {
      SlideBlockLines(i, slides[i]);
      ContentHeadingShape();
      ConvertKeepsLine(slides, i, "### Content");
    }
  }

  /** A slide's title, when it is one line, reaches the converter's output as
      a `**Title**: ` line. */
  lemma ConvertKeepsTitle(slides: seq<Slide>, i: nat)
    requires i < |slides|
    requires var title := LastCandidate(slides[i].shapes, TitleRole);
      title.Some? && '\n' !in title.value
    ensures Contains(ConvertText(slides), "**Title**: " + LastCandidate(slides[i].shapes, TitleRole).value)
  {
    var title := LastCandidate(slides[i].shapes, TitleRole);
    LastCandidateIsLast(slides[i].shapes, TitleRole);
    FieldLineShape("**Title**: ", title.value);
    SlideBlockLines(i, slides[i]);
    ConvertKeepsLine(slides, i, "**Title**: " + title.value);
  }

  /** Regroups the text around the separator part that `"\n".join`
      produces. Kept apart from its caller, which runs out of resource with
      these steps inline. */
  lemma SeparatorRegroup(first: string, middle: string, y: string)
    ensures first + "\n" + middle + ("\n" + Separator + "\n") + y
      == first + "\n" + ((middle + "\n") + "\n" + ("---" + ("\n" + ("\n" + ("\n" + y)))))
  {
    var d := "\n" + Separator + "\n";
    var r := "---" + ("\n" + ("\n" + ("\n" + y)));
    var q3 := "\n" + ("\n" + "\n");
    var q2 := "---" + q3;
    var q1 := "\n" + q2;
    assert d == "\n" + q1;
    AppendAssoc("\n", q1, y);
    AppendAssoc("\n", q2, y);
    AppendAssoc("---", q3, y);
    AppendAssoc("\n", "\n" + "\n", y);
    AppendAssoc("\n", "\n", y);
    assert d + y == "\n" + ("\n" + r);
    var f := first + "\n";
    AppendAssoc(f + middle, d, y);
    AppendAssoc(f, middle, d + y);
    AppendAssoc(middle, "\n", "\n" + r);
    AppendAssoc(middle + "\n", "\n", r);
  }

  /** Regroups a slide block's first two lines and what follows the block. */
  lemma HeadRegroup(heading: string, typeLine: string, rest: string, after: string)
    ensures heading + "\n" + (typeLine + "\n" + rest) + after
      == heading + ("\n" + (typeLine + ("\n" + (rest + after))))
  {
    AppendAssoc(typeLine, "\n", rest);
    AppendAssoc("\n", rest, after);
    AppendAssoc(typeLine, "\n" + rest, after);
    AppendAssoc("\n", typeLine + ("\n" + rest), after);
    AppendAssoc(heading, "\n", typeLine + "\n" + rest);
    AppendAssoc(heading, "\n" + (typeLine + "\n" + rest), after);
  }

  /** The blocks up to slide `i`, joined, start with the first heading line. */
  lemma JoinedBefore(slides: seq<Slide>, i: nat) returns (middle: string)
    requires i + 1 < |slides|
    ensures Join("\n" + Separator + "\n", SlideBlocks(slides)[..i + 1]) == Heading(0) + "\n" + middle
  {
    var d := "\n" + Separator + "\n";
    var pre := SlideBlocks(slides)[..i + 1];
    var t0 := TypeLine(TypeName(SlideTypeFromLayoutName(slides[0].layoutName)));
    SlideBlockHead(0, slides[0]);
    var rest0 :| SlideBlock(0, slides[0]) == Heading(0) + "\n" + (t0 + "\n" + rest0);
    var a1 := if |pre| == 1 then "" else d + Join(d, pre[1..]);
    middle := (t0 + "\n" + rest0) + a1;
    JoinFirst(d, pre);
    assert pre[0] == SlideBlock(0, slides[0]);
    AppendAssoc(Heading(0) + "\n", t0 + "\n" + rest0, a1);
  }

  /** The blocks from slide `i + 1` on, joined, start with that slide's
      heading and type line. */
  lemma JoinedFrom(slides: seq<Slide>, i: nat) returns (rest: string)
    requires i + 1 < |slides|
    ensures Join("\n" + Separator + "\n", SlideBlocks(slides)[i + 1..])
      == Heading(i + 1) + ("\n" + (TypeLine(TypeName(SlideTypeFromLayoutName(slides[i + 1].layoutName))) + ("\n" + rest)))
  {
    var d := "\n" + Separator + "\n";
    var post := SlideBlocks(slides)[i + 1..];
    var h := Heading(i + 1);
    var t := TypeLine(TypeName(SlideTypeFromLayoutName(slides[i + 1].layoutName)));
    SlideBlockHead(i + 1, slides[i + 1]);
    var rest1 :| SlideBlock(i + 1, slides[i + 1]) == h + "\n" + (t + "\n" + rest1);
    var b1 := if |post| == 1 then "" else d + Join(d, post[1..]);
    rest := rest1 + b1;
    JoinFirst(d, post);
    assert post[0] == SlideBlock(i + 1, slides[i + 1]);
    HeadRegroup(h, t, rest1, b1);
  }

  /** The joined text, split at the separator part after block `i`. */
  lemma JoinAtSeparator(blocks: seq<string>, i: nat)
    requires i + 1 < |blocks|
    ensures Join("\n", Interleave(blocks))
      == Join("\n" + Separator + "\n", blocks[..i + 1]) + ("\n" + Separator + "\n")
         + Join("\n" + Separator + "\n", blocks[i + 1..])
  {
    var d := "\n" + Separator + "\n";
    var pre, post := blocks[..i + 1], blocks[i + 1..];
    assert blocks == pre + post;
    JoinInterleave(blocks);
    JoinConcat(d, pre, post);
  }

  /** The joined slide blocks, split at the separator part after slide `i`. */
  lemma JoinedAround(slides: seq<Slide>, i: nat) returns (middle: string, rest: string)
    requires i + 1 < |slides|
    ensures Join("\n", Interleave(SlideBlocks(slides)))
      == Heading(0) + "\n" + ((middle + "\n") + "\n" + RuleThen(Heading(i + 1),
           TypeLine(TypeName(SlideTypeFromLayoutName(slides[i + 1].layoutName))), rest))
  {
    var h := Heading(i + 1);
    var t := TypeLine(TypeName(SlideTypeFromLayoutName(slides[i + 1].layoutName)));
    JoinAtSeparator(SlideBlocks(slides), i);
    middle := JoinedBefore(slides, i);
    rest := JoinedFrom(slides, i);
    SeparatorRegroup(Heading(0), middle, h + ("\n" + (t + ("\n" + rest))));
  }

  /** Between two consecutive slides the document holds the separator part,
      then the next slide's heading and type line: the three newlines after
      `---` are collapsed to two, and nothing of it is cleaned away. */
  lemma ConvertSeparated(slides: seq<Slide>, i: nat)
    requires i + 1 < |slides|
    ensures Contains(ConvertText(slides),
      Separator + Heading(i + 1) + "\n" + TypeLine(TypeName(SlideTypeFromLayoutName(slides[i + 1].layoutName))))
  {
    var middle, rest := JoinedAround(slides, i);
    HeadingLine(0);
    HeadingLine(i + 1);
    TypeLineShape(SlideTypeFromLayoutName(slides[i + 1].layoutName));
    FinalizeKeepsRule(Heading(0), middle + "\n", Heading(i + 1),
      TypeLine(TypeName(SlideTypeFromLayoutName(slides[i + 1].layoutName))), rest);
  }

  /** Every string is blank. */
  predicate AllBlank(ss: seq<string>) {
    forall k | 0 <= k < |ss| :: IsBlank(ss[k])
  }

  /** A segment that leaves nothing in the Content section: blank, or only
      image lines. */
  predicate Dropped(segment: string) {
    IsBlank(segment) || StripImageLines(segment) == ""
  }

  /** Every segment is dropped. */
  predicate AllDropped(ts: seq<string>) {
    forall k | 0 <= k < |ts| :: Dropped(ts[k])
  }

  lemma AllBlankConcat(a: seq<string>, b: seq<string>)
    ensures AllBlank(a + b) <==> AllBlank(a) && AllBlank(b)
  {
    if AllBlank(a) && AllBlank(b) {
      forall k | 0 <= k < |a + b| ensures IsBlank((a + b)[k]) {
        if k < |a| { assert (a + b)[k] == a[k]; } else { assert (a + b)[k] == b[k - |a|]; }
      }
    }
    if AllBlank(a + b) {
      forall k | 0 <= k < |a| ensures IsBlank(a[k]) { assert (a + b)[k] == a[k]; }
      forall k | 0 <= k < |b| ensures IsBlank(b[k]) { assert (a + b)[|a| + k] == b[k]; }
    }
  }

  /** One segment cleans to a blank string exactly when it is dropped. */
  lemma CleanOneBlank(segment: string)
    ensures AllBlank(if IsBlank(segment) then [] else [Strip(StripImageLines(segment))]) <==> Dropped(segment)
  {
    var x := StripImageLines(segment);
    StripIdempotent(RemoveImages(segment));
    StrippedBlank(segment, x);
  }

  /** For text `x` that does not start with whitespace, `[x]` is all blank
      exactly when `x` is empty. */
  lemma StrippedBlank(segment: string, x: string)
    requires x == [] || !IsSpace(x[0])
    ensures AllBlank(if IsBlank(segment) then [] else [x]) <==> IsBlank(segment) || x == ""
  {
    if !IsBlank(segment) {
      assert [x][0] == x;
    }
  }

  /** The joined block lines hold a `### Content` line and the content. */
  lemma BlockHasContent(index: nat, slideType: SlideType, hint: Option<string>,
                        title: Option<string>, subtitle: Option<string>, content: string)
    ensures Contains(Join("\n", BlockLines(index, slideType, hint, title, subtitle, content)), "### Content")
    ensures Contains(Join("\n", BlockLines(index, slideType, hint, title, subtitle, content)), content)
  {
    var lines := BlockLines(index, slideType, hint, title, subtitle, content);
    var head := [Heading(index), TypeLine(TypeName(slideType))]
      + Field("**Layout**: ", hint) + Field("**Title**: ", title) + Field("**Subtitle**: ", subtitle) + [""];
    var section := ContentLines(content);
    assert lines == head + section;
    assert lines[|head|] == "### Content";
    JoinHasPart("\n", lines, |head|);
    if content != "" {
      assert lines[|lines| - 1] == content;
      JoinHasPart("\n", lines, |lines| - 1);
    } else {
      assert Join("\n", lines)[..0] == content;
    }
  }

  /** Every slide block has a `### Content` line, followed by the slide's
      content when there is any. */
  lemma SlideBlockHasContent(index: nat, slide: Slide)
    ensures Contains(SlideBlock(index, slide), "### Content")
    ensures var title := LastCandidate(slide.shapes, TitleRole);
      var subtitle := LastCandidate(slide.shapes, SubtitleRole);
      Contains(SlideBlock(index, slide), ContentBlock(Segments(SortShapes(ContentShapes(slide.shapes)), title, subtitle)))
  {
    var title := LastCandidate(slide.shapes, TitleRole);
    var subtitle := LastCandidate(slide.shapes, SubtitleRole);
    var content := ContentBlock(Segments(SortShapes(ContentShapes(slide.shapes)), title, subtitle));
    BlockHasContent(index, SlideTypeFromLayoutName(slide.layoutName), LayoutHint(slide.layoutName), title, subtitle, content);
  }

  /** The cleaned segments are all blank exactly when every segment is
      dropped. */
  lemma {:induction false} CleanSegmentsBlank(segments: seq<string>)
    ensures AllBlank(CleanSegments(segments)) <==> forall k | 0 <= k < |segments| :: Dropped(segments[k])
    decreases |segments|
  {
    if segments != [] {
      var tail := segments[1..];
      CleanSegmentsBlank(tail);
      var head := if IsBlank(segments[0]) then [] else [Strip(StripImageLines(segments[0]))];
      AllBlankConcat(head, CleanSegments(tail));
      CleanOneBlank(segments[0]);
      assert forall k | 1 <= k < |segments| :: segments[k] == tail[k - 1];
    }
  }

  /** A slide has an empty Content section exactly when every segment is
      blank or holds nothing but image lines. */
  lemma ContentBlockEmpty(segments: seq<string>)
    ensures ContentBlock(segments) == "" <==> forall k | 0 <= k < |segments| :: Dropped(segments[k])
  {
    assert IsSpace('\n');
    JoinBlank("\n\n", CleanSegments(segments));
    CleanSegmentsBlank(segments);
  }

  /** A text frame that repeats the title or the subtitle adds nothing to the
      content. */
  lemma RepeatedTitleSkipped(s: Shape, title: Option<string>, subtitle: Option<string>)
    requires s.table.None? && !s.isPicture && s.frame.Some?
    requires Repeats(Strip(FrameText(s.frame.value)), title, subtitle)
    ensures ShapeSegment(s, title, subtitle).None?
  {
  }

  /** Pictures contribute nothing, whatever else the shape holds besides a
      table. */
  lemma PicturesSkipped(s: Shape, title: Option<string>, subtitle: Option<string>)
    requires s.table.None? && s.isPicture
    ensures ShapeSegment(s, title, subtitle).None?
  {
  }

  /** Every segment is non-empty, except an empty table. */
  lemma {:induction false} SegmentsNonEmpty(shapes: seq<Shape>, title: Option<string>, subtitle: Option<string>)
    requires forall k | 0 <= k < |shapes| :: shapes[k].table.None?
    ensures forall k | 0 <= k < |Segments(shapes, title, subtitle)| :: Segments(shapes, title, subtitle)[k] != ""
    decreases |shapes|
  {
    if shapes != [] {
      var init := shapes[..|shapes| - 1];
      assert forall k | 0 <= k < |init| :: init[k] == shapes[k];
      SegmentsNonEmpty(init, title, subtitle);
    }
  }

  // ---------------------------------------------------------------------
  // `_structure_body_content`

  /** The non-blank strings, in order. */
  function KeepNonBlank(ts: seq<string>): (r: seq<string>)
    decreases |ts|
  {
    if ts == [] then []
    else KeepNonBlank(ts[..|ts| - 1]) + (if IsBlank(ts[|ts| - 1]) then [] else [ts[|ts| - 1]])
  }

  /** The non-blank strings with their image lines removed, in order. */
  function CleanOthers(ts: seq<string>): (r: seq<string>)
    decreases |ts|
  {
    if ts == [] then []
    else CleanOthers(ts[..|ts| - 1]) + (if IsBlank(ts[|ts| - 1]) then [] else [StripImageLines(ts[|ts| - 1])])
  }

  lemma KeepNonBlankSnoc(pre: seq<string>, t: string)
    ensures KeepNonBlank(pre + [t]) == KeepNonBlank(pre) + (if IsBlank(t) then [] else [t])
  {
    assert (pre + [t])[..|pre|] == pre;
  }

  lemma CleanOthersSnoc(pre: seq<string>, t: string)
    ensures CleanOthers(pre + [t]) == CleanOthers(pre) + (if IsBlank(t) then [] else [StripImageLines(t)])
  {
    assert (pre + [t])[..|pre|] == pre;
  }

  /** The body segment: the body parts joined, without image lines, when
      anything is left. */
  function BodySegment(body: seq<string>): seq<string> {
    if body == [] then []
    else
      var combined := StripImageLines(Join("\n\n", body));
      if IsBlank(combined) then [] else [combined]
  }

  /** The Content block built from body text, table Markdown and other
      text. */
  function StructuredBody(body: seq<string>, tables: seq<string>, others: seq<string>): string {
    Strip(Join("\n\n", BodySegment(body) + KeepNonBlank(tables) + CleanOthers(others)))
  }

  /** The body part of `_structure_body_content`. */
  method AppendBody(body: seq<string>) returns (segments: seq<string>)
    ensures segments == BodySegment(body)
  {
    segments := [];
    if body != [] {
      var combined := Join("\n\n", body);
      combined := StripImageLines(combined);
      if Strip(combined) != "" {
        segments := segments + [combined];
      }
    }
  }

  /** The loop over the table Markdown of `_structure_body_content`. */
  method AppendTables(head: seq<string>, tables: seq<string>) returns (segments: seq<string>)
    ensures segments == head + KeepNonBlank(tables)
  {
    segments := head;
    for i := 0 to |tables|
      invariant segments == head + KeepNonBlank(tables[..i])
    {
      TakeSnoc(tables, i);
      KeepNonBlankSnoc(tables[..i], tables[i]);
      if Strip(tables[i]) != "" {
        AppendAssoc(head, KeepNonBlank(tables[..i]), [tables[i]]);
        segments := segments + [tables[i]];
      }
    }
    assert tables[..|tables|] == tables;
  }

  /** The loop over the other texts of `_structure_body_content`. */
  method AppendOthers(head: seq<string>, others: seq<string>) returns (segments: seq<string>)
    ensures segments == head + CleanOthers(others)
  {
    segments := head;
    for i := 0 to |others|
      invariant segments == head + CleanOthers(others[..i])
    {
      TakeSnoc(others, i);
      CleanOthersSnoc(others[..i], others[i]);
      if Strip(others[i]) != "" {
        AppendAssoc(head, CleanOthers(others[..i]), [StripImageLines(others[i])]);
        segments := segments + [StripImageLines(others[i])];
      }
    }
    assert others[..|others|] == others;
  }

  /** `_structure_body_content`. */
  method StructureBody(body: seq<string>, tables: seq<string>, others: seq<string>) returns (r: string)
    ensures r == StructuredBody(body, tables, others)
  {
    var segments := AppendBody(body);
    segments := AppendTables(segments, tables);
    segments := AppendOthers(segments, others);
    r := Strip(Join("\n\n", segments));
  }

  /** Keeping the non-blank strings leaves only blank ones exactly when all
      were blank. */
  lemma {:induction false} KeepNonBlankBlank(ts: seq<string>)
    ensures AllBlank(KeepNonBlank(ts)) <==> AllBlank(ts)
    decreases |ts|
  {
    if ts != [] {
      var init := ts[..|ts| - 1];
      var last := ts[|ts| - 1];
      KeepNonBlankBlank(init);
      AllBlankConcat(KeepNonBlank(init), if IsBlank(last) then [] else [last]);
      assert ts == init + [last];
      AllBlankConcat(init, [last]);
    }
  }

  /** One other text cleans to a blank string exactly when it is dropped. */
  lemma CleanOtherBlank(t: string)
    ensures AllBlank(if IsBlank(t) then [] else [StripImageLines(t)]) <==> Dropped(t)
  {
    var c := StripImageLines(t);
    assert [c][0] == c;
  }

  /** Every string of `init + [last]` is dropped exactly when every string of
      `init` and `last` are. */
  lemma AllDroppedSnoc(init: seq<string>, last: string)
    ensures AllDropped(init + [last]) <==> AllDropped(init) && Dropped(last)
  {
    assert forall k | 0 <= k < |init| :: (init + [last])[k] == init[k];
    assert (init + [last])[|init|] == last;
  }

  /** The cleaned other texts are all blank exactly when each was dropped. */
  lemma {:induction false} CleanOthersBlank(ts: seq<string>)
    ensures AllBlank(CleanOthers(ts)) <==> AllDropped(ts)
    decreases |ts|
  {
    if ts != [] {
      var init := ts[..|ts| - 1];
      var last := ts[|ts| - 1];
      var tail := if IsBlank(last) then [] else [StripImageLines(last)];
      InitLast(ts);
      CleanOthersSnoc(init, last);
      CleanOthersBlank(init);
      AllBlankConcat(CleanOthers(init), tail);
      CleanOtherBlank(last);
      AllDroppedSnoc(init, last);
    }
  }

  /** The Content block is empty exactly when the body holds only image
      lines, every table is blank and every other text is dropped. */
  lemma StructuredBodyEmpty(body: seq<string>, tables: seq<string>, others: seq<string>)
    ensures StructuredBody(body, tables, others) == ""
      <==> && (body == [] || IsBlank(StripImageLines(Join("\n\n", body))))
           && AllBlank(tables)
           && AllDropped(others)
  {
    var b := BodySegment(body);
    var t := KeepNonBlank(tables);
    var o := CleanOthers(others);
    assert IsSpace('\n');
    JoinBlank("\n\n", b + t + o);
    AllBlankConcat(b + t, o);
    AllBlankConcat(b, t);
    KeepNonBlankBlank(tables);
    CleanOthersBlank(others);
  }

  // ---------------------------------------------------------------------
  // Input checks

  /** What `convert` does with the input path before opening it. */
  datatype PathCheck = Missing | NotPptx | Accepted

  /** A missing file is reported first, then a name whose suffix is not
      `.pptx` in any letter case. */
  function CheckPptxPath(path: string, found: bool): (r: PathCheck)
    ensures r == Accepted <==> found && Lower(Paths.Suffix(Paths.Name(path))) == ".pptx"
    ensures r == NotPptx <==> found && Lower(Paths.Suffix(Paths.Name(path))) != ".pptx"
    ensures r == Missing <==> !found
  {
    if !found then Missing
    else if Lower(Paths.Suffix(Paths.Name(path))) != ".pptx" then NotPptx
    else Accepted
  }

  /** A file name is its own name. */
  lemma NameOfFileName(name: string)
    requires name != [] && '/' !in name
    ensures Paths.Name(name) == name
  {
    assert Paths.DropTrailingSlashes(name) == name;
    SplitJoin([name], '/');
  }

  /** The suffix decides, in any letter case: `dir/stem.ext` is accepted
      exactly when `ext` is `.pptx` up to case. */
  lemma SuffixDecides(dir: string, stem: string, ext: string)
    requires stem != [] && |ext| >= 2 && ext[0] == '.' && '.' !in ext[1..]
    requires '/' !in stem && '/' !in ext
    ensures CheckPptxPath(dir + "/" + (stem + ext), true) == (if Lower(ext) == ".pptx" then Accepted else NotPptx)
  {
    Paths.SuffixOfJoined(dir, stem, ext);
  }

  /** `DECK.PPTX` is accepted: the comparison ignores case. */
  lemma UpperCaseSuffixAccepted(dir: string)
    ensures CheckPptxPath(dir + "/" + ("DECK" + ".PPTX"), true) == Accepted
  {
    SuffixDecides(dir, "DECK", ".PPTX");
  }

  /** A dot-file such as `.pptx` has no suffix and is rejected. */
  lemma DotFileRejected(rest: string)
    requires '.' !in rest && '/' !in rest
    ensures CheckPptxPath("." + rest, true) == NotPptx
  {
    var name := "." + rest;
    assert '/' !in name;
    NameOfFileName(name);
    assert '.' !in name[1..] by { assert name[1..] == rest; }
    var i := Paths.LastIndexOf(name, '.');
    assert i.Some? && i.value == 0;
  }
}
