# thomas_utils converters in Dafny

A Dafny model of the document-conversion core of `thomas_utils`:

- **The python-pptx PowerPoint converter** (`converters/pptx_impl.py`).
  - The slide type and layout hint come from the layout name.
  - Title and subtitle come from the placeholders.
  - Content shapes are filtered and put in reading order.
  - Each shape is rendered: a pipe-table for a table, nothing for a picture, the paragraph segmenter for a text frame (fenced code, nested list items, plain text, display math), and the plain text of any other shape.
  - Every slide gets a Markdown block. The blocks are joined with `---` separators.
  - Clean-up: image lines are removed, runs of newlines are collapsed, and a final newline is added.
  - `_structure_body_content` and the path checks before a deck is opened are modelled too.
- **The Unstructured PowerPoint converter** (`converters/pptx_unstructured_impl.py`).
  - The element texts are grouped into slides by page number.
  - Each slide is written with the same slide template.
- **The command-line front end** (`cli.py`): the `--pages` parser, plus the checks and outcomes of `pdf2md`.
- **The PDF engine registry** (`converters/registry.py`): engine-name validation, and dispatch to exactly one backend.

The python-pptx library, the Unstructured partitioner and the PDF backends lie outside the model:
- A slide is a record (`PptxShapes.Slide`, `PptxShapes.Shape`).
- A partitioned element is a record (`PptxUnstructured.Element`).
- The two PDF backends are function parameters (`Registry.Backends`).

Where the source loops and mutates (the title scan, the paragraph loop with its code buffer, the table collection and padding, the slide loop, the grouping loop, `_parse_pages`), the model is a method with loop invariants. Each such method is proved equal to a specification function, and the properties are lemmas about that function.

Modules, one per file:
- `wrappers.dfy`: `Option`/`Result`.
- `text.dfy`: the parts of Python's `str` that are used.
- `paths.dfy`: `Path.name`, `suffix` and `stem`.
- `shapes.dfy`: slide and shape records, slide type, content filter, sort.
- `table.dfy`: `_table_to_markdown`.
- `paragraphs.dfy`: `_text_frame_to_structured_content`.
- `pptx_text.dfy`: image-line removal and newline collapsing.
- `slide_template.dfy`: the slide heading and separators.
- `convert.dfy`: the python-pptx `convert` and `_structure_body_content`.
- `unstructured.dfy`: `convert_unstructured`.
- `registry.dfy`: `get_engine` and `convert`.
- `cli.dfy`: `_parse_pages` and `_pdf2md`.

## Model

| member | source | states |
|---|---|---|
| PptxShapes.SlideTypeFromLayoutName | thomas_utils/converters/pptx_impl.py:67-78 | "Title Slide" exactly when the stripped, lower-cased name mentions "title" but not "content", "body" or "object", and mentions none of "section", "header", "구역" or "divider". "Section Divider" exactly when it mentions "section", "header" or "구역", or is such a title-only name that mentions "divider". Otherwise, and for no name, "Content Slide". |
| PptxShapes.SlideTypeCaseInsensitive | thomas_utils/converters/pptx_impl.py:71 | Two layout names that are equal once lower-cased get the same slide type. |
| PptxShapes.NoLayoutName | thomas_utils/converters/pptx_impl.py:69-70 | A missing or empty layout name gives "Content Slide". |
| PptxShapes.LayoutHint | thomas_utils/converters/pptx_impl.py:81-85 | The hint is present exactly when the lower-cased name contains "center", and it is then "Center-aligned". |
| PptxShapes.IsContentShape | thomas_utils/converters/pptx_impl.py:98-120 | A placeholder counts exactly when it is a BODY or VERTICAL_BODY placeholder. Any other shape counts exactly when it has a table, is a picture, has a text frame or has non-blank text. |
| PptxShapes.TitlesAreNotContent | thomas_utils/converters/pptx_impl.py:102-108 | Title, centre-title, vertical-title and subtitle placeholders are never content. |
| PptxShapes.ContentShapes | thomas_utils/converters/pptx_impl.py:302 | Every kept shape is a content shape, and no more shapes come out than went in. |
| PptxShapes.ContentShapesSubset | thomas_utils/converters/pptx_impl.py:302 | The filter never adds or duplicates a shape: the result is a sub-multiset of the slide's shapes. |
| PptxShapes.ContentShapesComplete | thomas_utils/converters/pptx_impl.py:302 | Every content shape of the slide is kept. |
| PptxShapes.SortShapesPermutes | thomas_utils/converters/pptx_impl.py:303 | Sorting is a permutation of the content shapes. |
| PptxShapes.SortShapesSorted | thomas_utils/converters/pptx_impl.py:60-64 | The sorted shapes are in ascending `(top or 0, left or 0)` order, compared as Python tuples. |
| PptxShapes.SortShapesStable | thomas_utils/converters/pptx_impl.py:303 | The sort is stable: for every key, the shapes with that key keep their slide order. |
| PptxShapes.ContentShapesAppend | thomas_utils/converters/pptx_impl.py:302 | Filtering a concatenation filters each part in turn. |
| PptxShapes.ContentShapesWithKey | thomas_utils/converters/pptx_impl.py:302 | The filter keeps slide order: the kept shapes with a given sort key are the slide's content shapes with that key, in slide order. |
| PptxShapes.OrderedContentStable | thomas_utils/converters/pptx_impl.py:302-303 | After filtering and sorting, the content shapes sharing a position appear in their slide order. |
| PptxShapes.InsertStable | thomas_utils/converters/pptx_impl.py:303 | Inserting a shape into a sorted list puts it after every shape with the same key. |
| PptxTable.EscapePipes | thomas_utils/converters/pptx_impl.py:129 | Every pipe in the result comes right after a backslash. The result has a newline exactly when the input has one. |
| PptxTable.EscapeRoundTrip | thomas_utils/converters/pptx_impl.py:129 | Escaping loses nothing: unescaping gives back the cell text. |
| PptxTable.CleanCellOneLine | thomas_utils/converters/pptx_impl.py:129 | A cleaned cell holds no newline. |
| PptxTable.CleanCellStripped | thomas_utils/converters/pptx_impl.py:129 | A cleaned cell has no surrounding whitespace. |
| PptxTable.CleanCellEscaped | thomas_utils/converters/pptx_impl.py:129 | Every pipe in a cleaned cell is escaped, also after the strip. |
| PptxTable.Width | thomas_utils/converters/pptx_impl.py:133 | `col_count` is at least every row's length and equal to one of them. |
| PptxTable.Pad | thomas_utils/converters/pptx_impl.py:134-136 | A padded row keeps its cells, then has `""` cells up to the column count, and is never shortened. |
| PptxTable.PadRows | thomas_utils/converters/pptx_impl.py:134-136 | The in-place padding loop leaves every row of the array padded to the column count. |
| PptxTable.CollectRows | thomas_utils/converters/pptx_impl.py:125-130 | The nested collection loops give one cleaned row per table row, with one cleaned cell per cell. |
| PptxTable.ColumnCount | thomas_utils/converters/pptx_impl.py:133 | The loop computes the maximum row length. |
| PptxTable.RenderLines | thomas_utils/converters/pptx_impl.py:143-145 | The loop builds the header line, the separator line, then one line per further row. |
| PptxTable.TableToMarkdown | thomas_utils/converters/pptx_impl.py:123-146 | The fallback renderer returns the specified table text. |
| PptxTable.TableEmpty | thomas_utils/converters/pptx_impl.py:131-132 | The result is `""` exactly for a table without rows. |
| PptxTable.RowsPadded | thomas_utils/converters/pptx_impl.py:133-136 | Every rendered row has the width of the widest row, starts with its own cleaned cells and continues with empty cells. |
| PptxTable.CellsClean | thomas_utils/converters/pptx_impl.py:129 | Every rendered cell is a single line with its pipes escaped. |
| PptxTable.LinesOneLine | thomas_utils/converters/pptx_impl.py:143-145 | No rendered table line holds a newline. |
| PptxTable.TableLines | thomas_utils/converters/pptx_impl.py:143-146 | Split at newlines, the table text is one line per row plus the separator as the second line. |
| PptxParagraphs.IndentationDead | thomas_utils/converters/pptx_impl.py:196-206 | On stripped text, neither the two-space test nor the `\s{2,}\S` branch of the code pattern can succeed. |
| PptxParagraphs.CodeDetectionIsKeywordPrefix | thomas_utils/converters/pptx_impl.py:186-206 | For a stripped text whose only whitespace is the plain space, looking like code is exactly starting with "from ", "import ", "def " or "class ". |
| PptxParagraphs.TabbedImportIsCode | thomas_utils/converters/pptx_impl.py:41-43 | "import\tos" matches the code pattern but none of the keyword prefixes. |
| PptxParagraphs.KeywordThenTextIsPrefix | thomas_utils/converters/pptx_impl.py:42 | When the only whitespace is the plain space, `kw\s+` implies the prefix `kw + " "`. |
| PptxParagraphs.FromImportIsPrefix | thomas_utils/converters/pptx_impl.py:42 | Under the same condition, `from\s+\S+\s+import` implies the prefix "from ". |
| PptxParagraphs.Classify | thomas_utils/converters/pptx_impl.py:196-207 | A paragraph's text is stripped and it keeps its level. It is skipped exactly when the stripped text is empty. It is code exactly when the text is non-empty, the level is 0 and the text looks like code. |
| PptxParagraphs.Flush | thomas_utils/converters/pptx_impl.py:188-193 | `flush_code` appends one fenced block when code lines are pending, and nothing otherwise. |
| PptxParagraphs.StructuredContent | thomas_utils/converters/pptx_impl.py:182-217 | The paragraph loop with its code buffer returns the structured text of the frame. |
| PptxParagraphs.PendingBlank | thomas_utils/converters/pptx_impl.py:197-199 | A blank paragraph closes the pending code block and adds nothing. |
| PptxParagraphs.PendingCode | thomas_utils/converters/pptx_impl.py:207-209 | A code paragraph joins the pending code block. |
| PptxParagraphs.PendingProse | thomas_utils/converters/pptx_impl.py:210-215 | Any other paragraph closes the pending block and becomes one item. |
| PptxParagraphs.PartsKeepText | thomas_utils/converters/pptx_impl.py:195-216 | No paragraph text is lost or reordered: the parts hold exactly the non-blank stripped texts, in order. |
| PptxParagraphs.AllCodeOneFence | thomas_utils/converters/pptx_impl.py:188-193 | A frame of code paragraphs only becomes a single fenced block holding all of them. |
| PptxParagraphs.NoCodeItems | thomas_utils/converters/pptx_impl.py:210-215 | A frame without code paragraphs becomes one item per non-blank paragraph. |
| PptxParagraphs.PartsNonBlank | thomas_utils/converters/pptx_impl.py:192 | Every rendered part is non-blank, including the indented `"   " * level + "- " + text` items. |
| PptxParagraphs.StructuredTextIsJoin | thomas_utils/converters/pptx_impl.py:217 | The result is the rendered parts joined with blank lines. The final `if p.strip()` filter removes nothing. |
| PptxText.RemoveImageLines | thomas_utils/converters/pptx_impl.py:38 | No image line survives the substitution, and newline-free lines stay newline-free. |
| PptxText.ImageLineBecomesEmpty | thomas_utils/converters/pptx_impl.py:38 | An image line, together with the whitespace-only lines right after it, becomes one empty line. A following line with text is kept. |
| PptxText.RemoveImageLinesNoop | thomas_utils/converters/pptx_impl.py:38 | Lines without image lines pass through unchanged. |
| PptxText.RemoveImagesIdempotent | thomas_utils/converters/pptx_impl.py:38 | Removing image lines twice is the same as once. |
| PptxText.RemoveImagesKeepsTwoLines | thomas_utils/converters/pptx_impl.py:38 | Two leading single lines that are not image lines survive the image-line substitution unchanged. |
| PptxText.CollapseNewlinesNoTriple | thomas_utils/converters/pptx_impl.py:362 | After `re.sub(r"\n{3,}", "\n\n", ...)` the text holds no three newlines in a row. |
| PptxText.CollapseKeepsText | thomas_utils/converters/pptx_impl.py:362 | The substitution only drops newlines: all other characters stay, in order. |
| PptxText.CollapseFromNoop | thomas_utils/converters/pptx_impl.py:362 | Text without three newlines in a row is left unchanged. |
| PptxText.CollapseNewlinesIdempotent | thomas_utils/converters/pptx_impl.py:362 | The substitution is idempotent. |
| PptxText.FinalizeShape | thomas_utils/converters/pptx_impl.py:360-363 | The cleaned-up result has no three newlines in a row. When non-empty, it starts with a non-space character and ends with exactly one newline. |
| PptxText.FinalizeEmpty | thomas_utils/converters/pptx_impl.py:363 | Empty text stays empty: no newline is added. |
| PptxText.FinalizeKeepsHeader | thomas_utils/converters/pptx_impl.py:360-363 | Two leading single lines that are not image lines, the first starting and the second ending with a non-space character, are kept at the start of the cleaned-up result. |
| PptxText.RemoveImageLinesKeeps | thomas_utils/converters/pptx_impl.py:361 | A non-blank line that is not an image line survives the image-line substitution. |
| PptxText.CollapseKeeps | thomas_utils/converters/pptx_impl.py:362 | Newline-free text found in the input is still found after the newline collapse. |
| Text.StripKeeps | thomas_utils/converters/pptx_impl.py:362 | `strip()` keeps any contained text that starts and ends with a non-space character. |
| PptxText.FinalizeKeepsLine | thomas_utils/converters/pptx_impl.py:360-363 | Every line of the joined text that is not an image line and has non-space ends is kept in the cleaned-up result. |
| PptxText.FinalizeKeepsRule | thomas_utils/converters/pptx_impl.py:360-363 | A `---` line preceded by a newline and followed by three newlines, a heading and a type line comes out of the clean-up as "\n---\n\n", the heading and the type line. |
| PptxText.RemoveImagesAppend | thomas_utils/converters/pptx_impl.py:361 | The image-line substitution works line by line: before a non-blank line it distributes over "\n". |
| SlideTemplate.JoinInterleave | thomas_utils/converters/pptx_impl.py:356-360 | Joining the blocks and `---` parts with "\n" puts "\n\n---\n\n\n" between consecutive blocks. |
| SlideTemplate.EmittedStep | thomas_utils/converters/pptx_impl.py:356-358 | Each slide appends its block, then a separator unless it is the last slide. |
| PptxConvert.LastCandidateNone | thomas_utils/converters/pptx_impl.py:289-299 | There is no title (or subtitle) exactly when no placeholder of that role has non-blank text. |
| PptxConvert.LastCandidateIsLast | thomas_utils/converters/pptx_impl.py:289-299 | The title is the stripped text of a candidate placeholder that no later candidate follows: the last one wins. |
| PptxConvert.SelectTitles | thomas_utils/converters/pptx_impl.py:286-299 | The placeholder scan yields the last non-blank title-kind placeholder's stripped text as the title, and likewise for the subtitle. |
| PptxConvert.ShapeContent | thomas_utils/converters/pptx_impl.py:306-330 | One shape's branch of the content loop appends exactly that shape's segment. |
| PptxConvert.ContentSegments | thomas_utils/converters/pptx_impl.py:304-330 | The content loop gives the segments of the shapes, in order. |
| PptxConvert.RepeatedTitleSkipped | thomas_utils/converters/pptx_impl.py:318-319 | A text frame whose stripped text equals the truthy title or subtitle adds nothing. |
| PptxConvert.PicturesSkipped | thomas_utils/converters/pptx_impl.py:311-313 | A picture without a table adds nothing. |
| PptxConvert.SegmentsNonEmpty | thomas_utils/converters/pptx_impl.py:314-330 | Without tables, every segment is non-empty. |
| PptxConvert.ContentBlockEmpty | thomas_utils/converters/pptx_impl.py:332-334 | The content block is empty exactly when every segment is blank or holds only image lines and whitespace. |
| PptxConvert.CleanSegmentsBlank | thomas_utils/converters/pptx_impl.py:332-333 | The cleaned segments are all blank exactly when every segment is dropped. |
| PptxConvert.Field | thomas_utils/converters/pptx_impl.py:341-346 | An optional `**Label**: value` field gives a line exactly when the value is truthy, and that line is the label followed by the value. |
| PptxConvert.ContentLines | thomas_utils/converters/pptx_impl.py:347-354 | The block always has "### Content" followed by an empty line. |
| PptxConvert.BlockLines | thomas_utils/converters/pptx_impl.py:337-354 | A slide block has at least five lines and starts with the heading `## Slide {index + 1}` and the type line. |
| PptxConvert.SlideBlockHasContent | thomas_utils/converters/pptx_impl.py:347-356 | Every slide block holds a "### Content" line and the slide's content block. |
| PptxConvert.SlideBlockLines | thomas_utils/converters/pptx_impl.py:337-356 | The heading, the type line and "### Content" are lines of every slide block, and so is `**Title**: title` when the title is truthy and one line. |
| PptxConvert.ConvertKeepsSlides | thomas_utils/converters/pptx_impl.py:337-363 | The final Markdown holds the heading and the type line of every slide, and "### Content". |
| PptxConvert.ConvertSeparated | thomas_utils/converters/pptx_impl.py:356-363 | Between consecutive slides the final Markdown holds "\n---\n\n" followed at once by the next slide's heading and type line: the separator survives the image-line substitution, and the three newlines after `---` are collapsed to two. |
| PptxConvert.JoinedAround | thomas_utils/converters/pptx_impl.py:356-360 | The joined text is the first slide's heading line, then the text up to slide `i`, then "\n\n---\n\n\n" and slide `i + 1`'s heading and type line. |
| PptxConvert.ConvertKeepsTitle | thomas_utils/converters/pptx_impl.py:337-363 | The final Markdown holds the `**Title**:` line of every slide whose title is one line. |
| PptxConvert.SlideBlockHead | thomas_utils/converters/pptx_impl.py:337-340 | Every slide block starts with its heading line and its type line. |
| PptxConvert.SlideBlocks | thomas_utils/converters/pptx_impl.py:280 | There is one block per slide. |
| PptxConvert.ConvertSlides | thomas_utils/converters/pptx_impl.py:278-363 | The slide loop and the clean-up return the specified document. |
| PptxConvert.ConvertEmpty | thomas_utils/converters/pptx_impl.py:360-363 | A deck without slides converts to "". |
| PptxConvert.ConvertShape | thomas_utils/converters/pptx_impl.py:360-363 | The document has no three newlines in a row. When non-empty, it starts with a non-space character and ends with exactly one newline. |
| PptxConvert.ConvertStartsWithFirstSlide | thomas_utils/converters/pptx_impl.py:337-363 | A non-empty deck's document starts with `## Slide 1` and the first slide's type line. |
| PptxConvert.AppendBody | thomas_utils/converters/pptx_impl.py:227-231 | The body parts become one segment: joined, image lines removed, kept only when not blank. |
| PptxConvert.AppendTables | thomas_utils/converters/pptx_impl.py:232-234 | The table loop appends the non-blank tables, in order. |
| PptxConvert.AppendOthers | thomas_utils/converters/pptx_impl.py:235-237 | The other-text loop appends each non-blank text with its image lines removed, in order. |
| PptxConvert.StructureBody | thomas_utils/converters/pptx_impl.py:220-238 | `_structure_body_content` returns the stripped join of the body segment, the tables and the other texts. |
| PptxConvert.StructuredBodyEmpty | thomas_utils/converters/pptx_impl.py:220-238 | The result is empty exactly when the body is empty or holds only image lines and whitespace, every table is blank, and every other text is dropped. |
| PptxConvert.CheckPptxPath | thomas_utils/converters/pptx_impl.py:271-275 | A missing file is reported first and only for a missing file. An existing deck is accepted exactly when its suffix is ".pptx" in any letter case, and refused as not a deck exactly when it is not. |
| PptxConvert.SuffixDecides | thomas_utils/converters/pptx_impl.py:274-275 | For `dir/stem.ext`, the suffix alone decides: accepted exactly when `ext` lower-cased is ".pptx". |
| PptxConvert.UpperCaseSuffixAccepted | thomas_utils/converters/pptx_impl.py:274 | `DECK.PPTX` is accepted. |
| PptxConvert.DotFileRejected | thomas_utils/converters/pptx_impl.py:274-275 | A dot-file with no further dot, such as `.pptx`, has no suffix and is rejected. |
| PptxUnstructured.ElementText | thomas_utils/converters/pptx_unstructured_impl.py:29 | An element's text is empty exactly when it has none or it is blank. |
| PptxUnstructured.GroupByPage | thomas_utils/converters/pptx_unstructured_impl.py:23-41 | The grouping loop, the final flush and the empty case give the specified slides. |
| PptxUnstructured.GroupsPartition | thomas_utils/converters/pptx_unstructured_impl.py:23-38 | The slides hold exactly the non-empty stripped texts, in order, and no slide is empty. |
| PptxUnstructured.StepPartitions | thomas_utils/converters/pptx_unstructured_impl.py:27-36 | One loop iteration keeps the invariant: finished and current slides hold the texts kept so far. |
| PptxUnstructured.BlankSkipped | thomas_utils/converters/pptx_unstructured_impl.py:30-31 | An element without text changes nothing. |
| PptxUnstructured.SplitCondition | thomas_utils/converters/pptx_unstructured_impl.py:32-35 | A slide is cut exactly when the element has text, carries a page other than the current one, and the current slide is not empty. The current page changes only then. |
| PptxUnstructured.SlidesPersist | thomas_utils/converters/pptx_unstructured_impl.py:27-36 | Finished slides are never changed by later elements. |
| PptxUnstructured.FirstElementAlone | thomas_utils/converters/pptx_unstructured_impl.py:25-35 | Because `current_page` starts at 0, the first text is a slide of its own whenever the second carries a page other than 0. |
| PptxUnstructured.SamePageSplit | thomas_utils/converters/pptx_unstructured_impl.py:25-38 | Two texts that both carry page 1 still land on two slides. |
| PptxUnstructured.NothingKept | thomas_utils/converters/pptx_unstructured_impl.py:40-41 | With no text kept, there is a single slide with one empty text. |
| PptxUnstructured.BlockShape | thomas_utils/converters/pptx_unstructured_impl.py:44-53 | The block of slide `i` starts with the heading `## Slide {i + 1}` and the `**Type**: Content Slide` line, and holds the "### Content" line and the slide's texts joined by blank lines. |
| PptxUnstructured.Render | thomas_utils/converters/pptx_unstructured_impl.py:43-56 | The rendering loop joins the blocks and the separators between them. |
| PptxUnstructured.UnstructuredBlocks | thomas_utils/converters/pptx_unstructured_impl.py:43-56 | The output is the slide blocks joined by "\n\n---\n\n\n". There is at least one block. |
| PptxUnstructured.EmptyDeck | thomas_utils/converters/pptx_unstructured_impl.py:40-56 | With no text, the output is one slide block whose content line is empty. |
| Registry.GetEngine | thomas_utils/converters/registry.py:9-14 | Succeeds exactly when the lower-cased, stripped name is "pymupdf" or "marker", and then returns that name. Otherwise it fails with "Unknown engine: {name}...". |
| Registry.GetEngineAcceptsOwnNames | thomas_utils/converters/registry.py:6-14 | "pymupdf" and "marker" resolve to themselves. |
| Registry.GetEngineRejectsInvalid | thomas_utils/converters/registry.py:12-13 | "invalid" is refused. |
| Registry.GetEngineNormalises | thomas_utils/converters/registry.py:11 | Letter case and surrounding whitespace do not matter: the normalised name resolves exactly as the name does. |
| Registry.GetEngineIdempotent | thomas_utils/converters/registry.py:9-14 | `get_engine` accepts its own result and returns it unchanged. |
| Registry.Convert | thomas_utils/converters/registry.py:17-42 | An unknown engine fails with the `get_engine` error. Otherwise the chosen backend is called with the path and the pages, and its result is returned. |
| Registry.ConvertCallsOneBackend | thomas_utils/converters/registry.py:33-41 | Only the chosen backend matters: backends that agree on it give the same result. |
| Registry.ConvertValidatesFirst | thomas_utils/converters/registry.py:33 | An unknown engine fails with "Unknown engine: ..." whatever the backends do. |
| Cli.ParseIntOfString | thomas_utils/cli.py:14-16 | `int(str(n)) == n`. |
| Cli.ParseIntOfNegative | thomas_utils/cli.py:14 | `int("-" + str(n)) == -n`. |
| Cli.RangeMembers | thomas_utils/cli.py:14 | `range(lo, hi)` holds exactly the integers from lo up to hi, strictly increasing. |
| Cli.ParsePart | thomas_utils/cli.py:12-16 | One part of the loop adds `range(a, b + 1)` for `a-b` split at the first dash, or its single number; it raises when a bound is not an integer. |
| Cli.ParsePages | thomas_utils/cli.py:8-17 | `_parse_pages` returns the specified page list, or raises. |
| Cli.InsertUnique | thomas_utils/cli.py:17 | Inserting keeps the list strictly increasing and adds exactly the new value. |
| Cli.SortedSet | thomas_utils/cli.py:17 | `sorted(set(xs))` is strictly increasing and holds exactly the values of xs. |
| Cli.Pages | thomas_utils/cli.py:8-17 | A parsed page list is strictly increasing. |
| Cli.PagesUnion | thomas_utils/cli.py:11-17 | Parsing raises exactly when some part raises. Otherwise the pages are exactly the union of the parts' contributions. |
| Cli.PartsValuesFails | thomas_utils/cli.py:11-16 | Once a part has raised, the whole argument raises. |
| Cli.PagesIgnoreSpaces | thomas_utils/cli.py:11 | Spaces anywhere in the argument are ignored. |
| Cli.RangePart | thomas_utils/cli.py:12-14 | `a-b` contributes exactly the pages from a to b inclusive, and none when b < a. |
| Cli.DashPart | thomas_utils/cli.py:12-14 | A part with a dash is read as two bounds around its first dash. |
| Cli.SinglePart | thomas_utils/cli.py:15-16 | A part without a dash contributes its number. |
| Cli.LeadingDashFails | thomas_utils/cli.py:12-14 | A leading dash (`-1`) leaves an empty lower bound and raises. |
| Cli.TwoDashesFail | thomas_utils/cli.py:13-14 | `1-2-3` raises: the text after the first dash is not a number. |
| Cli.RangeArgument | thomas_utils/cli.py:8-17 | The argument `a-b` gives the pages from a to b, in order. |
| Cli.ListArgument | thomas_utils/cli.py:8-17 | The argument `a,b,c` with a < b < c gives `[a, b, c]`. |
| Cli.ListAndRangeAgree | thomas_utils/cli.py:8-17 | `"0,1,2"` and `"0-2"`, and every such pair, give the same pages. |
| Cli.TrailingCommaFails | thomas_utils/cli.py:11-16 | A trailing comma leaves an empty part, which raises. |
| Cli.OutputPath | thomas_utils/cli.py:31 | A non-empty `--output` is used as given. |
| Cli.DefaultOutputPath | thomas_utils/cli.py:31 | Without `--output`, the file is named after the input's stem with suffix ".md" under `output/`. |
| Cli.ExitCode | thomas_utils/cli.py:20-55 | The exit code is 0 exactly when the file was written, and 1 exactly when the input was missing, was not a PDF or failed to convert. No code is returned exactly when the page parse raised out of `_pdf2md`. |
| Cli.Pdf2md | thomas_utils/cli.py:20-55 | A missing input is reported first and only for a missing input. An existing input is refused as not a PDF exactly when its suffix is not ".pdf" in any letter case. A file is written only for an existing PDF, and at the output path. |
| Cli.MissingBeforeSuffix | thomas_utils/cli.py:23-26 | A missing file ends with exit code 1 before the suffix is looked at. |
| Cli.BadPagesRaise | thomas_utils/cli.py:32-34 | A malformed `--pages` escapes as an exception, outside the `try`, whatever the engine. |
| Cli.DefaultOutputDir | thomas_utils/cli.py:31-55 | `dir/doc.pdf` with the default engine is written to `output/doc.md` with the backend's Markdown. |
| Cli.PdfSuffixDecides | thomas_utils/cli.py:27-29 | For `dir/stem.ext`, the input is refused as not a PDF exactly when `ext` lower-cased is not ".pdf". |
| Cli.UpperCasePdfAccepted | thomas_utils/cli.py:27 | An upper-case ".PDF" is not refused. |

## Left out

- **Parsing of the inputs.** The python-pptx and Unstructured readers of the `.pptx` file, the partitioner, and the PDF backends are not modelled: a slide, a shape and an element are given as records, and the backends as function parameters. `_get_placeholder_type` becomes the shape's `placeholder` field.
- **`pandas`.** The `df.to_markdown` branch of `_table_to_markdown` depends on whether `pandas` is installed. Only the fallback renderer is modelled.
- **Office Math.** The OMML extraction and its LaTeX conversion (`_extract_omml_from_shape`, `_omml_to_latex`) are external converters. A shape carries its LaTeX strings as an input.
- **Language-model and rendering paths.** `_llm_polish`, the multimodal path and the slide-to-image rendering call external services. They are not modelled, and neither is the `engine == "unstructured"` dispatch in `convert`.
- **Path checks of `convert_unstructured`** (`pptx_unstructured_impl.py` lines 15-19). They are the same checks as the python-pptx path checks, which are modelled as `PptxConvert.CheckPptxPath`.
- **The file system.** Whether the input exists is a boolean parameter. `Path` is modelled only for `name`, `suffix` and `stem` of `/`-separated strings, without normalisation of `.` or `..` components.
- **Debug logging, stderr and output.**
  - The debug-log block at import time is not modelled.
  - Neither are the messages written to stderr, the `ImportError` message selection in `_pdf2md`, or the directory creation and file write.
  - The written file and its text are the `Wrote` outcome.
- **`main` and argparse.** These are plumbing: `--engine` `choices` are not modelled, and `Registry.GetEngine` is what validates the engine.
- **Unicode.** `str.lower()` and the regex `\w` are modelled for ASCII letters only. `str.isspace()` and `\s` are the Unicode whitespace set. `int()` is modelled for ASCII digits with optional sign, surrounding whitespace and single underscores between digits; other Unicode decimal digits are not.
- **`shape.text_frame.text`** is modelled as the paragraph texts joined with "\n". A shape's `text` attribute and its frame are independent inputs: the model does not tie one to the other.
- **PptxShapes.SortShapes** models `list.sort` with an insertion sort over a sequence, and the sorted list replaces the original by reassignment. The in-place sort itself is library code.
- **Divider names.** The layout name's "divider" leads to "Section Divider" only together with a title-only name, as the code does (lines 72-77). A plain mention of "divider" without "title" gives "Content Slide".
- **Indentation-based code detection.** The `startswith("  ")` test and the `\s{2,}\S` branch of the code pattern can never fire on stripped paragraph text. The model keeps them, and `PptxParagraphs.IndentationDead` proves them dead.
- PptxConvert.ConvertSlides: that no separator follows the last slide is proved of the joined text before the clean-up (`SlideTemplate.JoinInterleave`, `SlideTemplate.EmittedStep`), not of the cleaned-up document; for the cleaned-up document the model proves what is kept (`ConvertKeepsSlides`, `ConvertKeepsTitle`, `ConvertSeparated`).
- **Cli.ParseIntOfString**, **Cli.ParseIntOfNegative**: `int()` is characterised through these round trips and the digit-group lemmas, not by a full statement of Python's integer grammar.
