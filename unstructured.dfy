/**
 * The Unstructured engine's slide grouping and rendering
 * (pptx_unstructured_impl.py, `convert_unstructured`): a flat list of
 * elements is cut into slides where the page number changes, then each slide
 * is written with the shared slide template.
 */
module PptxUnstructured {
  import opened Wrappers
  import opened Text
  import opened SlideTemplate

  /** One element from the partitioner: its page number (if any) and its text
      (if any). */
  datatype Element = Element(page: Option<int>, text: Option<string>)

  /** The stripped text of an element, "" when it has none. */
  function ElementText(e: Element): (t: string)
    ensures t == "" <==> e.text.None? || IsBlank(e.text.value)
  {
    if e.text.Some? then Strip(e.text.value) else ""
  }

  /** The loop state: the finished slides, the slide being filled and the
      page it is taken to be on. */
  datatype GroupState = GroupState(slides: seq<seq<string>>, current: seq<string>, currentPage: int)

  const Start := GroupState([], [], 0)

  /** A new slide starts here: the element carries a page other than the
      current one and the current slide is not empty. */
  predicate StartsSlide(st: GroupState, e: Element) {
    e.page.Some? && e.page.value != st.currentPage && st.current != []
  }

  /** One iteration of the grouping loop. */
  function Step(st: GroupState, e: Element): GroupState {
    var text := ElementText(e);
    if text == "" then st
    else if StartsSlide(st, e) then GroupState(st.slides + [st.current], [text], e.page.value)
    else st.(current := st.current + [text])
  }

  /** The loop state after the given elements. */
  function Fold(elements: seq<Element>): GroupState
    decreases |elements|
  {
    if elements == [] then Start
    else Step(Fold(elements[..|elements| - 1]), elements[|elements| - 1])
  }

  /** One more element is one more step. */
  lemma FoldSnoc(pre: seq<Element>, e: Element)
    ensures Fold(pre + [e]) == Step(Fold(pre), e)
  {
    assert (pre + [e])[..|pre|] == pre;
  }

  /** `slides_content` after the loop and the final flush. */
  function Groups(elements: seq<Element>): seq<seq<string>> {
    var st := Fold(elements);
    if st.current != [] then st.slides + [st.current] else st.slides
  }

  /** `slides_content` as rendered: a single empty slide when nothing was
      kept. */
  function SlidesContent(elements: seq<Element>): seq<seq<string>> {
    var g := Groups(elements);
    if g == [] then [[""]] else g
  }

  /** The grouping loop of `convert_unstructured`. */
  method GroupByPage(elements: seq<Element>) returns (slidesContent: seq<seq<string>>)
    ensures slidesContent == SlidesContent(elements)
  {
    slidesContent := [];
    var current: seq<string> := [];
    var currentPage: int := 0;
    for i := 0 to |elements|
      invariant GroupState(slidesContent, current, currentPage) == Fold(elements[..i])
    {
      assert elements[..i + 1] == elements[..i] + [elements[i]];
      FoldSnoc(elements[..i], elements[i]);
      var el := elements[i];
      var page := el.page;
      var text := if el.text.Some? then Strip(el.text.value) else "";
      if text == "" {
        continue;
      }
      if page.Some? && page.value != currentPage && current != [] {
        slidesContent := slidesContent + [current];
        current := [];
        currentPage := page.value;
      }
      current := current + [text];
    }
    assert elements[..|elements|] == elements;
    if current != [] {
      slidesContent := slidesContent + [current];
    }
    if slidesContent == [] {
      slidesContent := [[""]];
    }
  }

  // ---------------------------------------------------------------------
  // Grouping properties

  /** The stripped non-empty texts of the elements, in order. */
  function Kept(elements: seq<Element>): seq<string>
    decreases |elements|
  {
    if elements == [] then []
    else
      var t := ElementText(elements[|elements| - 1]);
      Kept(elements[..|elements| - 1]) + (if t == "" then [] else [t])
  }

  /** All slides, one after the other. */
  function Flatten(slides: seq<seq<string>>): seq<string>
    decreases |slides|
  {
    if slides == [] then [] else Flatten(slides[..|slides| - 1]) + slides[|slides| - 1]
  }

  /** No slide is empty. */
  predicate NoEmptySlide(slides: seq<seq<string>>) {
    forall k | 0 <= k < |slides| :: slides[k] != []
  }

  /** What the loop keeps: finished slides and the current one hold exactly
      the kept texts, and no finished slide is empty. */
  predicate Partitions(st: GroupState, kept: seq<string>) {
    Flatten(st.slides) + st.current == kept && NoEmptySlide(st.slides)
  }

  lemma StepPartitions(st: GroupState, e: Element, kept: seq<string>)
    requires Partitions(st, kept)
    ensures Partitions(Step(st, e), kept + (if ElementText(e) == "" then [] else [ElementText(e)]))
  {
    var text := ElementText(e);
    if text != "" {
      if StartsSlide(st, e) {
        var slides := st.slides + [st.current];
        assert slides[..|slides| - 1] == st.slides;
        assert Flatten(slides) == Flatten(st.slides) + st.current;
      }
    }
  }

  lemma {:induction false} FoldPartitions(elements: seq<Element>)
    ensures Partitions(Fold(elements), Kept(elements))
    decreases |elements|
  {
    if elements != [] {
      var init := elements[..|elements| - 1];
      FoldPartitions(init);
      StepPartitions(Fold(init), elements[|elements| - 1], Kept(init));
    }
  }

  /** The slides hold exactly the non-empty stripped texts, in their
      original order, and no slide is empty. */
  lemma GroupsPartition(elements: seq<Element>)
    ensures Flatten(Groups(elements)) == Kept(elements)
    ensures NoEmptySlide(Groups(elements))
  {
    FoldPartitions(elements);
    var st := Fold(elements);
    if st.current != [] {
      var g := st.slides + [st.current];
      assert g[..|g| - 1] == st.slides;
    }
  }

  /** Elements without text change nothing. */
  lemma BlankSkipped(elements: seq<Element>, e: Element)
    requires ElementText(e) == ""
    ensures Fold(elements + [e]) == Fold(elements)
  {
    assert (elements + [e])[..|elements|] == elements;
  }

  /** A new slide begins exactly when the element has text, carries a page
      other than the current page and the current slide is not empty. */
  lemma SplitCondition(elements: seq<Element>, e: Element)
    ensures |Fold(elements + [e]).slides| == |Fold(elements).slides| + (if ElementText(e) != "" && StartsSlide(Fold(elements), e) then 1 else 0)
    ensures Fold(elements + [e]).currentPage
      == if ElementText(e) != "" && StartsSlide(Fold(elements), e) then e.page.value else Fold(elements).currentPage
  {
    assert (elements + [e])[..|elements|] == elements;
  }

  /** Finished slides are never changed by later elements. */
  lemma {:induction false} SlidesPersist(pre: seq<Element>, rest: seq<Element>)
    ensures |Fold(pre).slides| <= |Fold(pre + rest).slides|
    ensures Fold(pre + rest).slides[..|Fold(pre).slides|] == Fold(pre).slides
    decreases |rest|
  {
    if rest == [] {
      assert pre + rest == pre;
    } else {
      var init := rest[..|rest| - 1];
      SlidesPersist(pre, init);
      var all := pre + rest;
      assert all[..|all| - 1] == pre + init;
      var before := Fold(pre + init).slides;
      var after := Fold(all).slides;
      assert after == before || after == before + [Fold(pre + init).current];
      assert after[..|before|] == before;
      assert after[..|Fold(pre).slides|] == before[..|Fold(pre).slides|];
    }
  }

  /** The quirk of `current_page`: it starts at 0 and only changes at a cut.
      When the first kept element is on a page other than 0 and the second
      carries any other page than 0, the first element is a slide of its
      own, even when both elements are on the same page. */
  lemma FirstElementAlone(x: Element, y: Element, rest: seq<Element>)
    requires ElementText(x) != "" && ElementText(y) != ""
    requires y.page.Some? && y.page.value != 0
    ensures |Groups([x, y] + rest)| >= 1 && Groups([x, y] + rest)[0] == [ElementText(x)]
  {
    FirstTwo(x, y);
    SlidesPersist([x, y], rest);
    var all := [x, y] + rest;
    var slides := Fold(all).slides;
    assert slides[..1] == [[ElementText(x)]];
    GroupsKeepSlides(all);
    assert Groups(all)[0] == slides[..1][0];
  }

  /** After the first two kept elements, the first is a finished slide. */
  lemma FirstTwo(x: Element, y: Element)
    requires ElementText(x) != "" && ElementText(y) != ""
    requires y.page.Some? && y.page.value != 0
    ensures Fold([x, y]) == GroupState([[ElementText(x)]], [ElementText(y)], y.page.value)
  {
    var st1 := Fold([x]);
    assert st1 == GroupState([], [ElementText(x)], 0) by {
      FoldSnoc([], x);
      assert [] + [x] == [x];
    }
    assert StartsSlide(st1, y);
    assert Fold([x, y]) == Step(st1, y) by {
      FoldSnoc([x], y);
      assert [x] + [y] == [x, y];
    }
  }

  /** The final flush only adds a slide after the finished ones. */
  lemma GroupsKeepSlides(elements: seq<Element>)
    ensures |Fold(elements).slides| <= |Groups(elements)|
    ensures Groups(elements)[..|Fold(elements).slides|] == Fold(elements).slides
  {
  }

  /** Two texts on the same page 1 still land on two slides. */
  lemma SamePageSplit(a: string, b: string)
    requires !IsBlank(a) && !IsBlank(b)
    ensures Groups([Element(Some(1), Some(a)), Element(Some(1), Some(b))]) == [[Strip(a)], [Strip(b)]]
  {
    var x := Element(Some(1), Some(a));
    var y := Element(Some(1), Some(b));
    FirstTwo(x, y);
  }

  /** With nothing kept, there is a single slide with an empty text. */
  lemma NothingKept(elements: seq<Element>)
    requires forall k | 0 <= k < |elements| :: ElementText(elements[k]) == ""
    ensures SlidesContent(elements) == [[""]]
  {
    GroupsPartition(elements);
    NothingKeptIsEmpty(elements);
    FlattenLength(Groups(elements));
  }

  lemma {:induction false} NothingKeptIsEmpty(elements: seq<Element>)
    requires forall k | 0 <= k < |elements| :: ElementText(elements[k]) == ""
    ensures Kept(elements) == []
    decreases |elements|
  {
    if elements != [] {
      var init := elements[..|elements| - 1];
      assert forall k | 0 <= k < |init| :: init[k] == elements[k];
      NothingKeptIsEmpty(init);
    }
  }

  /** Slides without an empty one hold at least one text each. */
  lemma {:induction false} FlattenLength(slides: seq<seq<string>>)
    requires NoEmptySlide(slides)
    ensures |Flatten(slides)| >= |slides|
    decreases |slides|
  {
    if slides != [] {
      var init := slides[..|slides| - 1];
      assert forall k | 0 <= k < |init| :: init[k] == slides[k];
      FlattenLength(init);
      assert slides[|slides| - 1] != [];
    }
  }

  // ---------------------------------------------------------------------
  // Rendering

  /** The content line of one slide: its texts joined by blank lines. */
  function SlideText(parts: seq<string>): string {
    Strip(Join("\n\n", parts))
  }

  /** `block_lines` of slide `i`. */
  function BlockLines(i: nat, parts: seq<string>): (lines: seq<string>)
    ensures |lines| == 6 && lines[0] == Heading(i) && lines[5] == SlideText(parts)
  {
    [Heading(i), TypeLine("Content Slide"), "", "### Content", "", SlideText(parts)]
  }

  /** The block of every slide, in order. */
  function Blocks(slides: seq<seq<string>>): (blocks: seq<string>)
    ensures |blocks| == |slides|
    ensures forall i | 0 <= i < |slides| :: blocks[i] == Join("\n", BlockLines(i, slides[i]))
  {
    seq(|slides|, i requires 0 <= i < |slides| => Join("\n", BlockLines(i, slides[i])))
  }

  /** Every block starts with its heading and the `Content Slide` type line,
      and holds the `### Content` line and the slide's texts. */
  lemma BlockShape(slides: seq<seq<string>>, i: nat)
    requires i < |slides|
    ensures StartsWith(Blocks(slides)[i], Heading(i) + "\n" + TypeLine("Content Slide"))
    ensures Contains(Blocks(slides)[i], "### Content")
    ensures Contains(Blocks(slides)[i], SlideText(slides[i]))
  {
    var lines := BlockLines(i, slides[i]);
    assert Blocks(slides)[i] == Join("\n", lines);
    JoinStartsTwo("\n", lines);
    JoinHasPart("\n", lines, 3);
    JoinHasPart("\n", lines, 5);
  }

  /** The rendering loop of `convert_unstructured`. */
  method Render(slides: seq<seq<string>>) returns (md: string)
    ensures md == Join("\n", Interleave(Blocks(slides)))
  {
    ghost var blocks := Blocks(slides);
    var mdParts: seq<string> := [];
    for i := 0 to |slides|
      invariant mdParts == Emitted(blocks, i)
    {
      var parts := slides[i];
      var blockLines := [Heading(i), TypeLine("Content Slide"), "", "### Content", "", Strip(Join("\n\n", parts))];
      EmittedStep(blocks, i);
      mdParts := mdParts + [Join("\n", blockLines)];
      if i < |slides| - 1 {
        mdParts := mdParts + [Separator];
      }
    }
    md := Join("\n", mdParts);
  }

  /** The Markdown of `convert_unstructured` for a list of elements. */
  function UnstructuredText(elements: seq<Element>): string {
    Join("\n", Interleave(Blocks(SlidesContent(elements))))
  }

  /** One block per slide, separated by the `---` part and with nothing after
      the last block. */
  lemma UnstructuredBlocks(elements: seq<Element>)
    ensures UnstructuredText(elements) == Join("\n" + Separator + "\n", Blocks(SlidesContent(elements)))
    ensures |Blocks(SlidesContent(elements))| == |SlidesContent(elements)| >= 1
  {
    JoinInterleave(Blocks(SlidesContent(elements)));
  }

  /** With no text at all, the output is the block of one slide whose
      Content line is empty. */
  lemma EmptyDeck(elements: seq<Element>)
    requires forall k | 0 <= k < |elements| :: ElementText(elements[k]) == ""
    ensures UnstructuredText(elements) == Join("\n", BlockLines(0, [""]))
    ensures BlockLines(0, [""])[5] == ""
  {
    assert SlideText([""]) == "" by {
      assert Join("\n\n", [""]) == "";
      StripNoop("");
    }
    NothingKept(elements);
    var blocks := Blocks([[""]]);
    assert |blocks| == 1;
    assert Join("\n", Interleave(blocks)) == blocks[0];
  }
}
