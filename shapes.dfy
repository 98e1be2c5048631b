/**
 * Slides and shapes of the python-pptx converter (pptx_impl.py), as abstract
 * records: the slide type and layout hint derived from the layout name, the
 * content-shape filter, and the reading-order sort of content shapes.
 */
module PptxShapes {
  import opened Wrappers
  import opened Text
  import PptxParagraphs

  /** The placeholder types the converter distinguishes (`PP_PLACEHOLDER`). */
  datatype PlaceholderKind =
    | TitlePh | CenterTitlePh | VerticalTitlePh | SubtitlePh
    | BodyPh | VerticalBodyPh | OtherPh

  /** A shape of a slide, as the converter reads it.
      `placeholder`: `_get_placeholder_type(shape)`;
      `top`, `left`: the position, `None` where absent;
      `table`: the cell texts of `shape.table` when `has_table`;
      `isPicture`: `shape_type == MSO_SHAPE_TYPE.PICTURE`;
      `frame`: the paragraphs of `shape.text_frame` when it has one;
      `text`: `shape.text` when the shape has that attribute;
      `math`: the LaTeX strings found in the shape's Office Math. */
  datatype Shape = Shape(
    placeholder: Option<PlaceholderKind>,
    top: Option<int>,
    left: Option<int>,
    table: Option<seq<seq<string>>>,
    isPicture: bool,
    frame: Option<seq<PptxParagraphs.Paragraph>>,
    text: Option<string>,
    math: seq<string>)

  /** A slide: the name of its layout (if any) and its shapes in slide order. */
  datatype Slide = Slide(layoutName: Option<string>, shapes: seq<Shape>)

  // ---------------------------------------------------------------------
  // Slide type and layout hint

  datatype SlideType = TitleSlide | ContentSlide | SectionDivider

  /** The string written after `**Type**: `. */
  function TypeName(t: SlideType): string {
    match t
    case TitleSlide => "Title Slide"
    case ContentSlide => "Content Slide"
    case SectionDivider => "Section Divider"
  }

  /** "구역" (Korean for "section"). */
  const Section: string := "\U{AD6C}\U{C5ED}"

  /** The layout name mentions a title and none of content, body or object. */
  predicate TitleOnly(n: string) {
    Contains(n, "title") && !Contains(n, "content") && !Contains(n, "body") && !Contains(n, "object")
  }

  /** The layout name mentions a section or a header. */
  predicate SectionWord(n: string) {
    Contains(n, "section") || Contains(n, "header") || Contains(n, Section)
  }

  /** `name.strip().lower()` */
  function Normalized(name: string): string {
    Lower(Strip(name))
  }

  /** `_slide_type_from_layout_name`. */
  function SlideTypeFromLayoutName(name: Option<string>): (t: SlideType)
    ensures t == TitleSlide <==>
      name.Some? && TitleOnly(Normalized(name.value))
      && !SectionWord(Normalized(name.value)) && !Contains(Normalized(name.value), "divider")
    ensures t == SectionDivider <==>
      name.Some? && (SectionWord(Normalized(name.value))
        || (TitleOnly(Normalized(name.value)) && Contains(Normalized(name.value), "divider")))
  {
    if name.None? then ContentSlide
    else if name.value == "" then
      assert Normalized(name.value) == "";
      ContentSlide
    else
      var n := Normalized(name.value);
      if TitleOnly(n) then
        if SectionWord(n) || Contains(n, "divider") then SectionDivider else TitleSlide
      else if SectionWord(n) then SectionDivider
      else ContentSlide
  }

  /** Lower-case letters do not change under lower-casing. */
  lemma LowerOfLower(a: string, b: string)
    requires Lower(a) == Lower(b)
    ensures Normalized(a) == Normalized(b)
  {
    LowerStripCommute(a);
    LowerStripCommute(b);
  }

  /** The slide type ignores letter case: layout names that agree once
      lower-cased get the same type. */
  lemma SlideTypeCaseInsensitive(a: string, b: string)
    requires Lower(a) == Lower(b)
    ensures SlideTypeFromLayoutName(Some(a)) == SlideTypeFromLayoutName(Some(b))
  {
    LowerOfLower(a, b);
  }

  /** A missing or empty layout name gives a content slide. */
  lemma NoLayoutName()
    ensures SlideTypeFromLayoutName(None) == ContentSlide
    ensures SlideTypeFromLayoutName(Some("")) == ContentSlide
  {
    assert Normalized("") == "";
  }

  /** `_layout_hint_from_layout_name`. */
  function LayoutHint(name: Option<string>): (r: Option<string>)
    ensures r.Some? <==> name.Some? && Contains(Lower(name.value), "center")
    ensures r.Some? ==> r.value == "Center-aligned"
  {
    if name.None? || name.value == "" || !Contains(Lower(name.value), "center") then None
    else Some("Center-aligned")
  }

  // ---------------------------------------------------------------------
  // Placeholders and content shapes

  /** TITLE, CENTER_TITLE or VERTICAL_TITLE. */
  predicate IsTitleKind(k: PlaceholderKind) {
    k == TitlePh || k == CenterTitlePh || k == VerticalTitlePh
  }

  /** `_is_content_shape`: placeholders count only when they are body
      placeholders; other shapes when they hold a table, a picture, a text
      frame or non-blank text. */
  function IsContentShape(s: Shape): (r: bool)
    ensures s.placeholder.Some? ==>
      (r <==> s.placeholder.value == BodyPh || s.placeholder.value == VerticalBodyPh)
    ensures s.placeholder.None? ==>
      (r <==> s.table.Some? || s.isPicture || s.frame.Some? || (s.text.Some? && !IsBlank(s.text.value)))
  {
    if s.placeholder.Some? then
      var k := s.placeholder.value;
      if IsTitleKind(k) || k == SubtitlePh then false
      else if k == BodyPh || k == VerticalBodyPh then true
      else false
    else if s.table.Some? then true
    else if s.isPicture then true
    else if s.frame.Some? then true
    else if s.text.Some? && !IsBlank(s.text.value) then true
    else false
  }

  /** A title or subtitle placeholder never counts as content. */
  lemma TitlesAreNotContent(s: Shape)
    requires s.placeholder.Some? && (IsTitleKind(s.placeholder.value) || s.placeholder.value == SubtitlePh)
    ensures !IsContentShape(s)
  {
  }

  /** `[s for s in slide.shapes if _is_content_shape(s, title, subtitle)]`. */
  function ContentShapes(shapes: seq<Shape>): (r: seq<Shape>)
    ensures |r| <= |shapes|
    ensures forall k | 0 <= k < |r| :: IsContentShape(r[k])
  {
    if shapes == [] then []
    else (if IsContentShape(shapes[0]) then [shapes[0]] else []) + ContentShapes(shapes[1..])
  }

  /** The filter only drops shapes: it never adds or duplicates one. */
  lemma {:induction false} ContentShapesSubset(shapes: seq<Shape>)
    ensures multiset(ContentShapes(shapes)) <= multiset(shapes)
    decreases |shapes|
  {
    if shapes != [] {
      ContentShapesSubset(shapes[1..]);
      assert shapes == [shapes[0]] + shapes[1..];
    }
  }

  /** Every content shape of the slide is kept. */
  lemma {:induction false} ContentShapesComplete(shapes: seq<Shape>, s: Shape)
    requires s in shapes && IsContentShape(s)
    ensures s in ContentShapes(shapes)
    decreases |shapes|
  {
    if shapes[0] != s {
      assert s in shapes[1..];
      ContentShapesComplete(shapes[1..], s);
    }
  }

  // ---------------------------------------------------------------------
  // Reading order

  /** `_content_shape_sort_key`: `(top or 0, left or 0)`. */
  function SortKey(s: Shape): (int, int) {
    (if s.top.Some? then s.top.value else 0, if s.left.Some? then s.left.value else 0)
  }

  /** Python's tuple order on sort keys. */
  predicate KeyLess(a: (int, int), b: (int, int)) {
    a.0 < b.0 || (a.0 == b.0 && a.1 < b.1)
  }

  predicate KeyLe(a: (int, int), b: (int, int)) {
    !KeyLess(b, a)
  }

  /** Ascending by sort key. */
  predicate Sorted(s: seq<Shape>) {
    forall i, j | 0 <= i < j < |s| :: KeyLe(SortKey(s[i]), SortKey(s[j]))
  }

  /** Insert `x` after every element whose key is not greater than its own. */
  function Insert(x: Shape, s: seq<Shape>): (r: seq<Shape>)
    ensures |r| == |s| + 1
  {
    if s == [] then [x]
    else if KeyLess(SortKey(x), SortKey(s[0])) then [x] + s
    else [s[0]] + Insert(x, s[1..])
  }

  /** `content_shapes.sort(key=_content_shape_sort_key)`: a stable sort. */
  function SortShapes(s: seq<Shape>): (r: seq<Shape>)
    ensures |r| == |s|
  {
    if s == [] then []
    else Insert(s[|s| - 1], SortShapes(s[..|s| - 1]))
  }

  /** Inserting adds `x` and keeps every other shape. */
  lemma {:induction false} InsertPermutes(x: Shape, s: seq<Shape>)
    ensures multiset(Insert(x, s)) == multiset(s) + multiset{x}
    decreases |s|
  {
    if s != [] && !KeyLess(SortKey(x), SortKey(s[0])) {
      InsertPermutes(x, s[1..]);
      assert s == [s[0]] + s[1..];
    }
  }

  /** The sort is a permutation: no shape is lost or duplicated. */
  lemma {:induction false} SortShapesPermutes(s: seq<Shape>)
    ensures multiset(SortShapes(s)) == multiset(s)
    decreases |s|
  {
    if s != [] {
      SortShapesPermutes(s[..|s| - 1]);
      InsertPermutes(s[|s| - 1], SortShapes(s[..|s| - 1]));
      assert s == s[..|s| - 1] + [s[|s| - 1]];
    }
  }

  lemma {:induction false} InsertSorted(x: Shape, s: seq<Shape>)
    requires Sorted(s)
    ensures Sorted(Insert(x, s))
    decreases |s|
  {
    if s != [] && !KeyLess(SortKey(x), SortKey(s[0])) {
      InsertSorted(x, s[1..]);
      InsertPermutes(x, s[1..]);
      var r := Insert(x, s[1..]);
      assert forall k | 0 <= k < |r| :: KeyLe(SortKey(s[0]), SortKey(r[k])) by {
        forall k | 0 <= k < |r|
          ensures KeyLe(SortKey(s[0]), SortKey(r[k]))
        {
          assert r[k] in multiset(r);
          assert r[k] == x || r[k] in multiset(s[1..]);
          if r[k] != x {
            var j :| 0 <= j < |s[1..]| && s[1..][j] == r[k];
            assert s[j + 1] == r[k];
          }
        }
      }
    }
  }

  /** The sorted shapes are in reading order: top to bottom, then left to
      right. */
  lemma {:induction false} SortShapesSorted(s: seq<Shape>)
    ensures Sorted(SortShapes(s))
    decreases |s|
  {
    if s != [] {
      SortShapesSorted(s[..|s| - 1]);
      InsertSorted(s[|s| - 1], SortShapes(s[..|s| - 1]));
    }
  }

  /** The shapes of `s` whose sort key is `key`, in order. */
  function WithKey(s: seq<Shape>, key: (int, int)): seq<Shape> {
    if s == [] then []
    else (if SortKey(s[0]) == key then [s[0]] else []) + WithKey(s[1..], key)
  }

  lemma {:induction false} WithKeyAppend(a: seq<Shape>, b: seq<Shape>, key: (int, int))
    ensures WithKey(a + b, key) == WithKey(a, key) + WithKey(b, key)
    decreases |a|
  {
    if a == [] {
      assert a + b == b;
    } else {
      WithKeyAppend(a[1..], b, key);
      assert (a + b)[1..] == a[1..] + b;
    }
  }

  /** No shape of a sorted list whose first key is greater than `key` has
      key `key`. */
  lemma {:induction false} WithKeyAbove(s: seq<Shape>, key: (int, int))
    requires Sorted(s) && s != [] && KeyLess(key, SortKey(s[0]))
    ensures WithKey(s, key) == []
    decreases |s|
  {
    if |s| > 1 {
      assert KeyLe(SortKey(s[0]), SortKey(s[1]));
      WithKeyAbove(s[1..], key);
    } else {
      assert s[1..] == [];
    }
  }

  /** Inserting `x` puts it after every shape with the same key. */
  lemma {:induction false} InsertStable(x: Shape, s: seq<Shape>, key: (int, int))
    requires Sorted(s)
    ensures WithKey(Insert(x, s), key) == WithKey(s, key) + WithKey([x], key)
    decreases |s|
  {
    if s == [] {
    } else if KeyLess(SortKey(x), SortKey(s[0])) {
      assert ([x] + s)[1..] == s;
      if SortKey(x) == key {
        WithKeyAbove(s, key);
      }
    } else {
      InsertStable(x, s[1..], key);
      var r := [s[0]] + Insert(x, s[1..]);
      assert r[1..] == Insert(x, s[1..]);
    }
  }

  /** The sort is stable: shapes with equal keys keep their slide order. */
  lemma {:induction false} SortShapesStable(s: seq<Shape>, key: (int, int))
    ensures WithKey(SortShapes(s), key) == WithKey(s, key)
    decreases |s|
  {
    if s != [] {
      var init := s[..|s| - 1];
      var last := s[|s| - 1];
      var sorted := SortShapes(init);
      assert SortShapes(s) == Insert(last, sorted);
      assert WithKey(sorted, key) == WithKey(init, key) by {
        SortShapesStable(init, key);
      }
      assert WithKey(Insert(last, sorted), key) == WithKey(sorted, key) + WithKey([last], key) by {
        SortShapesSorted(init);
        InsertStable(last, sorted, key);
      }
      assert WithKey(s, key) == WithKey(init, key) + WithKey([last], key) by {
        assert s == init + [last];
        WithKeyAppend(init, [last], key);
      }
    }
  }

  /** The filter keeps slide order: filtering a concatenation filters each
      side in turn. */
  lemma {:induction false} ContentShapesAppend(a: seq<Shape>, b: seq<Shape>)
    ensures ContentShapes(a + b) == ContentShapes(a) + ContentShapes(b)
    decreases |a|
  {
    if a == [] {
      assert a + b == b;
    } else {
      assert (a + b)[0] == a[0];
      assert (a + b)[1..] == a[1..] + b;
      ContentShapesAppend(a[1..], b);
    }
  }

  /** Keeping the content shapes and keeping the shapes with one key can be
      done in either order. */
  lemma {:induction false} ContentShapesWithKey(shapes: seq<Shape>, key: (int, int))
    ensures WithKey(ContentShapes(shapes), key) == ContentShapes(WithKey(shapes, key))
    decreases |shapes|
  {
    if shapes != [] {
      var x := shapes[0];
      var rest := shapes[1..];
      var content := if IsContentShape(x) then [x] else [];
      var keyed := if SortKey(x) == key then [x] else [];
      assert WithKey(content, key) == ContentShapes(keyed) by {
        assert [x][1..] == [];
      }
      assert WithKey(ContentShapes(shapes), key) == WithKey(content, key) + WithKey(ContentShapes(rest), key) by {
        WithKeyAppend(content, ContentShapes(rest), key);
      }
      assert ContentShapes(WithKey(shapes, key)) == ContentShapes(keyed) + ContentShapes(WithKey(rest, key)) by {
        ContentShapesAppend(keyed, WithKey(rest, key));
      }
      ContentShapesWithKey(rest, key);
    }
  }

  /** What a slide renders in order: content shapes with the same position
      keep their slide order through the filter and the sort. */
  lemma OrderedContentStable(shapes: seq<Shape>, key: (int, int))
    ensures WithKey(SortShapes(ContentShapes(shapes)), key) == ContentShapes(WithKey(shapes, key))
  {
    SortShapesStable(ContentShapes(shapes), key);
    ContentShapesWithKey(shapes, key);
  }
}
