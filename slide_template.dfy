/**
 * The per-slide Markdown template shared by the python-pptx converter and the
 * Unstructured converter: a `## Slide N` heading, a `**Type**:` line, and a
 * `---` separator part between consecutive slides, all joined with "\n".
 */
module SlideTemplate {
  import opened Text

  /** The part appended to `md_parts` after every slide but the last. */
  const Separator: string := "\n---\n\n"

  /** First line of a slide block: `## Slide {index + 1}`. */
  function Heading(index: nat): string {
    "## Slide " + NatToString(index + 1)
  }

  /** Second line of a slide block: `**Type**: {typeName}`. */
  function TypeLine(typeName: string): string {
    "**Type**: " + typeName
  }

  /** The list `md_parts` that the slide loop builds: each block, followed by
      the separator part unless it is the last block. */
  function Interleave(blocks: seq<string>): (parts: seq<string>)
    ensures |parts| == if |blocks| == 0 then 0 else 2 * |blocks| - 1
    decreases |blocks|
  {
    if |blocks| <= 1 then blocks
    else Interleave(blocks[..|blocks| - 1]) + [Separator, blocks[|blocks| - 1]]
  }

  /** Joining `md_parts` with "\n" puts "\n" + Separator + "\n" between
      consecutive blocks and nothing after the last one. */
  lemma {:induction false} JoinInterleave(blocks: seq<string>)
    ensures Join("\n", Interleave(blocks)) == Join("\n" + Separator + "\n", blocks)
    decreases |blocks|
  {
    if |blocks| > 1 {
      var init := blocks[..|blocks| - 1];
      var last := blocks[|blocks| - 1];
      JoinInterleave(init);
      var pre := Interleave(init);
      assert Interleave(blocks) == (pre + [Separator]) + [last];
      JoinAppend("\n", pre + [Separator], last);
      JoinAppend("\n", pre, Separator);
      assert blocks == init + [last];
      JoinAppend("\n" + Separator + "\n", init, last);
    }
  }

  /** The joined `md_parts` begins with the first block. */
  lemma JoinedStartsWithFirst(blocks: seq<string>)
    requires |blocks| > 0
    ensures StartsWith(Join("\n", Interleave(blocks)), blocks[0])
  {
    JoinInterleave(blocks);
    if |blocks| > 1 {
      assert Join("\n" + Separator + "\n", blocks)
        == blocks[0] + ("\n" + Separator + "\n") + Join("\n" + Separator + "\n", blocks[1..]);
    }
  }

  /** `md_parts` after the first `i` slides: every block so far, a separator
      after each but the last block of the deck. */
  function Emitted(blocks: seq<string>, i: nat): (parts: seq<string>)
    requires i <= |blocks|
  {
    if i == 0 then []
    else if i < |blocks| then Interleave(blocks[..i]) + [Separator]
    else Interleave(blocks)
  }

  /** One more slide appends its block, then a separator unless it is the
      last slide. */
  lemma EmittedStep(blocks: seq<string>, i: nat)
    requires i < |blocks|
    ensures Emitted(blocks, i + 1) == Emitted(blocks, i) + [blocks[i]] + (if i < |blocks| - 1 then [Separator] else [])
  {
    var next := blocks[..i + 1];
    assert next[..i] == blocks[..i];
    if i + 1 == |blocks| {
      assert next == blocks;
    }
  }

  /** Block `i` is part `2 * i` of `md_parts`. */
  lemma {:induction false} InterleaveAt(blocks: seq<string>, i: nat)
    requires i < |blocks|
    ensures Interleave(blocks)[2 * i] == blocks[i]
    decreases |blocks|
  {
    if |blocks| > 1 && i < |blocks| - 1 {
      var init := blocks[..|blocks| - 1];
      InterleaveAt(init, i);
      assert Interleave(blocks)[2 * i] == Interleave(init)[2 * i];
    }
  }
}
