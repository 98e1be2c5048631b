/**
 * The hand-written fallback of `_table_to_markdown` (pptx_impl.py): a pipe
 * table whose cells are escaped and flattened to one line, whose rows are
 * padded with "" to the widest row, and whose second line is the `---`
 * separator.
 */
module PptxTable {
  import opened Text

  // ---------------------------------------------------------------------
  // Cells

  /** `s.replace("|", "\\|")`. */
  function EscapePipes(s: string): (r: string)
    ensures |r| >= |s|
    ensures forall i | 0 <= i < |r| && r[i] == '|' :: i > 0 && r[i - 1] == '\\'
    ensures '\n' in r <==> '\n' in s
    decreases |s|
  {
    if s == [] then ""
    else
      var tail := EscapePipes(s[1..]);
      assert '\n' in s <==> s[0] == '\n' || '\n' in s[1..] by {
        assert s == [s[0]] + s[1..];
      }
      if s[0] == '|' then "\\|" + tail else [s[0]] + tail
  }

  /** Undo `EscapePipes`: a backslash right before a pipe is dropped. */
  function UnescapePipes(s: string): (r: string)
    decreases |s|
  {
    if s == [] then ""
    else if |s| >= 2 && s[0] == '\\' && s[1] == '|' then "|" + UnescapePipes(s[2..])
    else [s[0]] + UnescapePipes(s[1..])
  }

  /** Escaping never produces text that starts with a bare pipe. */
  lemma EscapeHead(s: string)
    requires s != []
    ensures EscapePipes(s)[0] != '|'
  {
  }

  /** Escaping pipes loses nothing: unescaping gives the cell text back. */
  lemma {:induction false} EscapeRoundTrip(s: string)
    ensures UnescapePipes(EscapePipes(s)) == s
    decreases |s|
  {
    if s != [] {
      EscapeRoundTrip(s[1..]);
      var tail := EscapePipes(s[1..]);
      if s[0] == '|' {
        assert ("\\|" + tail)[2..] == tail;
      } else {
        if tail != [] {
          EscapeHead(s[1..]);
        }
        assert ([s[0]] + tail)[1..] == tail;
      }
    }
  }

  /** `(cell.text or "").replace("|", "\\|").replace("\n", " ").strip()`. */
  function CleanCell(text: string): (r: string)
  {
    Strip(ReplaceChar(EscapePipes(text), '\n', ' '))
  }

  /** Every pipe in `s` comes right after a backslash. */
  predicate PipesEscaped(s: string) {
    forall i | 0 <= i < |s| && s[i] == '|' :: i > 0 && s[i - 1] == '\\'
  }

  /** Cutting whitespace off the front keeps the pipes escaped. */
  lemma SliceEscaped(f: string, a: nat, b: nat)
    requires PipesEscaped(f) && a <= b <= |f|
    requires a > 0 ==> IsSpace(f[a - 1])
    ensures PipesEscaped(f[a..b])
  {
    var r := f[a..b];
    forall i | 0 <= i < |r| && r[i] == '|'
      ensures i > 0 && r[i - 1] == '\\'
    {
      assert f[a + i] == '|';
    }
  }

  /** A cleaned cell is a single line. */
  lemma CleanCellOneLine(text: string)
    ensures '\n' !in CleanCell(text)
  {
    var f := ReplaceChar(EscapePipes(text), '\n', ' ');
    var r := CleanCell(text);
    assert r == f[StripStart(f)..StripEnd(f)];
    forall k | 0 <= k < |r|
      ensures r[k] != '\n'
    {
      assert r[k] == f[StripStart(f) + k];
    }
  }

  /** A cleaned cell has no surrounding whitespace. */
  lemma CleanCellStripped(text: string)
    ensures Strip(CleanCell(text)) == CleanCell(text)
  {
    StripIdempotent(ReplaceChar(EscapePipes(text), '\n', ' '));
  }

  /** Every pipe in a cleaned cell is escaped. */
  lemma CleanCellEscaped(text: string)
    ensures PipesEscaped(CleanCell(text))
  {
    var f := ReplaceChar(EscapePipes(text), '\n', ' ');
    assert PipesEscaped(f);
    var i0 := StripStart(f);
    if i0 > 0 {
      assert f[..i0][i0 - 1] == f[i0 - 1];
    }
    SliceEscaped(f, i0, StripEnd(f));
  }

  // ---------------------------------------------------------------------
  // Rows

  /** `max(len(r) for r in rows)` over a non-empty list of rows. */
  function Width(rows: seq<seq<string>>): (w: nat)
    requires rows != []
    ensures forall i | 0 <= i < |rows| :: |rows[i]| <= w
    ensures exists i | 0 <= i < |rows| :: |rows[i]| == w
  {
    if |rows| == 1 then |rows[0]|
    else
      var w := Width(rows[1..]);
      assert forall i | 1 <= i < |rows| :: rows[i] == rows[1..][i - 1];
      if |rows[0]| >= w then |rows[0]| else w
  }

  /** `n` empty cells. */
  function Blanks(n: nat): (r: seq<string>)
    ensures |r| == n && forall k | 0 <= k < n :: r[k] == ""
  {
    if n == 0 then [] else Blanks(n - 1) + [""]
  }

  /** A row after `while len(r) < col_count: r.append("")`. */
  function Pad(row: seq<string>, w: nat): (r: seq<string>)
    ensures |r| == if |row| < w then w else |row|
    ensures r[..|row|] == row
    ensures forall k | |row| <= k < |r| :: r[k] == ""
  {
    if |row| < w then row + Blanks(w - |row|) else row
  }

  /** The cells of one row, cleaned. */
  function CleanRow(row: seq<string>): (r: seq<string>)
    ensures |r| == |row|
  {
    seq(|row|, j requires 0 <= j < |row| => CleanCell(row[j]))
  }

  /** The rows of the table, cleaned. */
  function CleanRows(table: seq<seq<string>>): (rows: seq<seq<string>>)
    ensures |rows| == |table|
  {
    seq(|table|, i requires 0 <= i < |table| => CleanRow(table[i]))
  }

  /** The rows of the table, cleaned and padded. */
  function Rows(table: seq<seq<string>>): (rows: seq<seq<string>>)
    requires table != []
    ensures |rows| == |table|
  {
    var cleaned := CleanRows(table);
    var w := Width(cleaned);
    seq(|table|, i requires 0 <= i < |table| => Pad(cleaned[i], w))
  }

  /** `"| " + " | ".join(r) + " |"`. */
  function RowLine(r: seq<string>): string {
    "| " + Join(" | ", r) + " |"
  }

  /** `"| " + " | ".join("---" for _ in range(col_count)) + " |"`. */
  function SeparatorLine(w: nat): string {
    RowLine(seq(w, _ => "---"))
  }

  /** One line per row. */
  function RowLines(rows: seq<seq<string>>): (lines: seq<string>)
    ensures |lines| == |rows|
  {
    seq(|rows|, i requires 0 <= i < |rows| => RowLine(rows[i]))
  }

  /** The lines of the table: header row, separator, remaining rows. */
  function Lines(rows: seq<seq<string>>): (lines: seq<string>)
    requires rows != []
    ensures |lines| == |rows| + 1
  {
    [RowLine(rows[0]), SeparatorLine(|rows[0]|)] + RowLines(rows[1..])
  }

  /** The result of the fallback branch of `_table_to_markdown`. */
  function TableText(table: seq<seq<string>>): string {
    if table == [] then "" else Join("\n", Lines(Rows(table)))
  }

  // ---------------------------------------------------------------------
  // The renderer

  /** `while len(r) < col_count: r.append("")` for every row `r`. */
  method PadRows(rows: array<seq<string>>, colCount: nat)
    modifies rows
    ensures forall k | 0 <= k < rows.Length :: rows[k] == Pad(old(rows[k]), colCount)
  {
    for i := 0 to rows.Length
      invariant forall k | 0 <= k < i :: rows[k] == Pad(old(rows[k]), colCount)
      invariant forall k | i <= k < rows.Length :: rows[k] == old(rows[k])
    {
      ghost var row := rows[i];
      ghost var before := rows[..];
      while |rows[i]| < colCount
        invariant rows[i] == row + Blanks(|rows[i]| - |row|)
        invariant |row| <= |rows[i]| <= (if |row| < colCount then colCount else |row|)
        invariant forall k | 0 <= k < rows.Length && k != i :: rows[k] == before[k]
        decreases colCount - |rows[i]|
      {
        rows[i] := rows[i] + [""];
      }
      assert |row| >= colCount ==> row + Blanks(0) == row;
    }
  }

  /** The nested loops that collect `rows`: every cell of every row, cleaned. */
  method CollectRows(table: seq<seq<string>>) returns (rows: array<seq<string>>)
    ensures fresh(rows)
    ensures rows[..] == CleanRows(table)
  {
    rows := new seq<string>[|table|];
    for i := 0 to |table|
      invariant forall k | 0 <= k < i :: rows[k] == CleanRow(table[k])
    {
      var cells: seq<string> := [];
      for j := 0 to |table[i]|
        invariant cells == CleanRow(table[i][..j])
      {
        assert table[i][..j + 1] == table[i][..j] + [table[i][j]];
        cells := cells + [CleanCell(table[i][j])];
      }
      assert table[i][..|table[i]|] == table[i];
      rows[i] := cells;
    }
  }

  /** `col_count = max(len(r) for r in rows)`. */
  method ColumnCount(rows: array<seq<string>>) returns (colCount: nat)
    requires rows.Length > 0
    ensures colCount == Width(rows[..])
  {
    colCount := |rows[0]|;
    for i := 1 to rows.Length
      invariant forall k | 0 <= k < i :: |rows[k]| <= colCount
      invariant exists k | 0 <= k < i :: |rows[k]| == colCount
    {
      if |rows[i]| > colCount {
        colCount := |rows[i]|;
      }
    }
    assert forall k | 0 <= k < rows.Length :: rows[..][k] == rows[k];
  }

  /** The header line, the separator line, then one line per further row. */
  method RenderLines(rows: array<seq<string>>) returns (lines: seq<string>)
    requires rows.Length > 0
    ensures lines == Lines(rows[..])
  {
    lines := [RowLine(rows[0]), SeparatorLine(|rows[0]|)];
    for i := 1 to rows.Length
      invariant lines == [RowLine(rows[0]), SeparatorLine(|rows[0]|)] + RowLines(rows[1..i])
    {
      assert RowLines(rows[1..i + 1]) == RowLines(rows[1..i]) + [RowLine(rows[i])];
      lines := lines + [RowLine(rows[i])];
    }
    assert rows[1..rows.Length] == rows[..][1..];
  }

  /** The fallback branch of `_table_to_markdown`: collect the cleaned cells
      row by row, pad every row in place to the widest, then render. */
  method TableToMarkdown(table: seq<seq<string>>) returns (md: string)
    ensures md == TableText(table)
  {
    if |table| == 0 {
      return "";
    }
    var rows := CollectRows(table);
    var colCount := ColumnCount(rows);
    PadRows(rows, colCount);
    assert rows[..] == Rows(table);
    var lines := RenderLines(rows);
    md := Join("\n", lines);
  }

  // ---------------------------------------------------------------------
  // Properties of the rendered table

  /** The renderer gives "" exactly for a table without rows. */
  lemma TableEmpty(table: seq<seq<string>>)
    ensures TableText(table) == "" <==> table == []
  {
    if table != [] {
      var lines := Lines(Rows(table));
      assert Join("\n", lines) == lines[0] + "\n" + Join("\n", lines[1..]);
    }
  }

  /** Every row is padded to the widest row: it keeps its cleaned cells in
      order and is filled up with "". */
  lemma RowsPadded(table: seq<seq<string>>, i: nat)
    requires i < |table|
    ensures var w := Width(CleanRows(table));
      && |Rows(table)[i]| == w
      && Rows(table)[i][..|table[i]|] == CleanRow(table[i])
      && forall j | |table[i]| <= j < w :: Rows(table)[i][j] == ""
  {
    var w := Width(CleanRows(table));
    assert |CleanRows(table)[i]| <= w;
  }

  /** Every cell of the rendered table is a single line with its pipes
      escaped. */
  lemma CellsClean(table: seq<seq<string>>, i: nat, j: nat)
    requires i < |table| && j < |Rows(table)[i]|
    ensures '\n' !in Rows(table)[i][j] && PipesEscaped(Rows(table)[i][j])
  {
    var row := Rows(table)[i];
    if j < |table[i]| {
      RowsPadded(table, i);
      assert row[j] == row[..|table[i]|][j] == CleanCell(table[i][j]);
      CleanCellOneLine(table[i][j]);
      CleanCellEscaped(table[i][j]);
    } else {
      RowsPadded(table, i);
    }
  }

  /** A row whose cells are single lines renders as a single line. */
  lemma RowLineOneLine(r: seq<string>)
    requires forall j | 0 <= j < |r| :: '\n' !in r[j]
    ensures '\n' !in RowLine(r)
  {
    JoinFree(" | ", r, '\n');
  }

  /** No line of the table contains a newline. */
  lemma LinesOneLine(table: seq<seq<string>>)
    requires table != []
    ensures forall k | 0 <= k < |table| + 1 :: '\n' !in Lines(Rows(table))[k]
  {
    var rows := Rows(table);
    var lines := Lines(rows);
    forall i | 0 <= i < |rows|
      ensures '\n' !in RowLine(rows[i])
    {
      forall j | 0 <= j < |rows[i]|
        ensures '\n' !in rows[i][j]
      {
        CellsClean(table, i, j);
      }
      RowLineOneLine(rows[i]);
    }
    RowLineOneLine(seq(|rows[0]|, _ => "---"));
    forall k | 0 <= k < |lines|
      ensures '\n' !in lines[k]
    {
      if k >= 2 {
        assert lines[k] == RowLines(rows[1..])[k - 2] == RowLine(rows[k - 1]);
      }
    }
  }

  /** The table has one line per row plus the separator as its second line,
      which holds one `---` per column of the widest row. */
  lemma TableLines(table: seq<seq<string>>)
    requires table != []
    ensures var lines := Split(TableText(table), '\n');
      && lines == Lines(Rows(table))
      && |lines| == |table| + 1
      && lines[1] == SeparatorLine(Width(CleanRows(table)))
  {
    LinesOneLine(table);
    SplitJoin(Lines(Rows(table)), '\n');
    RowsPadded(table, 0);
  }
}
