/**
 * The `pdf2md` command (cli.py): the `--pages` list parser, the default
 * output path and the checks made before the conversion.
 */
module Cli {
  import opened Wrappers
  import opened Text
  import Paths
  import Registry

  // ---------------------------------------------------------------------
  // `int(text)`

  function DigitValue(c: char): nat
    requires IsDigit(c)
  {
    c as int - '0' as int
  }

  /** Decimal digits, with single underscores allowed between two digits. */
  predicate DigitGroups(d: string) {
    && |d| > 0 && IsDigit(d[0]) && IsDigit(d[|d| - 1])
    && (forall i | 0 <= i < |d| :: IsDigit(d[i]) || d[i] == '_')
    && (forall i | 0 <= i < |d| - 1 :: d[i] == '_' ==> d[i + 1] != '_')
  }

  /** The value of the digits, underscores ignored. */
  function DigitsValue(d: string): nat
    requires forall i | 0 <= i < |d| :: IsDigit(d[i]) || d[i] == '_'
    decreases |d|
  {
    if d == [] then 0
    else
      var init := d[..|d| - 1];
      if d[|d| - 1] == '_' then DigitsValue(init) else DigitsValue(init) * 10 + DigitValue(d[|d| - 1])
  }

  /** Python's `int(text)` in base 10: surrounding whitespace, an optional
      sign, then digit groups; anything else raises `ValueError` (`None`). */
  function ParseInt(text: string): (r: Option<int>)
    ensures IsBlank(text) ==> r.None?
  {
    var t := Strip(text);
    if t != [] && (t[0] == '+' || t[0] == '-') then
      var d := t[1..];
      if !DigitGroups(d) then None
      else if t[0] == '-' then Some(-(DigitsValue(d) as int))
      else Some(DigitsValue(d))
    else if DigitGroups(t) then Some(DigitsValue(t))
    else None
  }

  /** The digits of `str(n)` have the value `n`. */
  lemma {:induction false} DigitsValueOfString(n: nat)
    ensures DigitsValue(NatToString(n)) == n
    decreases n
  {
    if n >= 10 {
      DigitsValueOfString(n / 10);
      var s := NatToString(n);
      assert s[..|s| - 1] == NatToString(n / 10);
    }
  }

  /** The digits of `str(n)` form one digit group. */
  lemma StringIsDigitGroups(n: nat)
    ensures DigitGroups(NatToString(n))
    ensures !IsSpace(NatToString(n)[0]) && !IsSpace(NatToString(n)[|NatToString(n)| - 1])
    ensures '-' !in NatToString(n) && ',' !in NatToString(n) && ' ' !in NatToString(n)
  {
    var s := NatToString(n);
    assert forall i | 0 <= i < |s| :: IsDigit(s[i]);
  }

  /** A digit group reads as its value. */
  lemma ParseIntOfDigits(d: string, v: nat)
    requires DigitGroups(d) && DigitsValue(d) == v
    ensures ParseInt(d) == Some(v)
  {
    StripNoop(d);
  }

  /** A minus sign before a digit group negates its value. */
  lemma ParseIntOfMinusDigits(d: string, v: nat)
    requires DigitGroups(d) && DigitsValue(d) == v
    ensures ParseInt("-" + d) == Some(-(v as int))
  {
    var m := "-" + d;
    assert m[|m| - 1] == d[|d| - 1];
    StripNoop(m);
    assert m[1..] == d;
  }

  /** `int(str(n)) == n`. */
  lemma ParseIntOfString(n: nat)
    ensures ParseInt(NatToString(n)) == Some(n)
  {
    var s := NatToString(n);
    assert DigitGroups(s) by {
      StringIsDigitGroups(n);
    }
    assert DigitsValue(s) == n by {
      DigitsValueOfString(n);
    }
    ParseIntOfDigits(s, n);
  }

  /** `int("-" + str(n)) == -n`. */
  lemma ParseIntOfNegative(n: nat)
    ensures ParseInt("-" + NatToString(n)) == Some(-(n as int))
  {
    var s := NatToString(n);
    assert DigitGroups(s) by {
      StringIsDigitGroups(n);
    }
    assert DigitsValue(s) == n by {
      DigitsValueOfString(n);
    }
    ParseIntOfMinusDigits(s, n);
  }

  // ---------------------------------------------------------------------
  // `_parse_pages`

  /** `range(lo, hi)`. */
  function Range(lo: int, hi: int): (r: seq<int>)
    ensures |r| == if hi <= lo then 0 else hi - lo
    ensures forall i | 0 <= i < |r| :: r[i] == lo + i
  {
    seq(if hi <= lo then 0 else hi - lo, k => lo + k)
  }

  /** `range(lo, hi)` holds exactly the integers from `lo` up to `hi`, in
      increasing order. */
  lemma RangeMembers(lo: int, hi: int)
    ensures forall x :: x in Range(lo, hi) <==> lo <= x < hi
    ensures StrictlyIncreasing(Range(lo, hi))
  {
    var r := Range(lo, hi);
    forall x | lo <= x < hi ensures x in r {
      assert r[x - lo] == x;
    }
  }

  /** `range(a, b + 1)` when both bounds parsed, `None` when either raised. */
  function Bounds(a: Option<int>, b: Option<int>): Option<seq<int>> {
    if a.Some? && b.Some? then Some(Range(a.value, b.value + 1)) else None
  }

  lemma BoundsSome(a: Option<int>, b: Option<int>)
    requires a.Some? && b.Some?
    ensures Bounds(a, b) == Some(Range(a.value, b.value + 1))
  {
  }

  /** What one comma-separated part adds to the page list: `range(a, b + 1)`
      for `a-b` (split at the first dash), `[int(part)]` otherwise; `None`
      when `int` raises. */
  function PartValues(part: string): Option<seq<int>> {
    if '-' in part then
      var i := IndexOf(part, '-');
      var a := ParseInt(part[..i]);
      var b := ParseInt(part[i + 1..]);
      Bounds(a, b)
    else
      var v := ParseInt(part);
      if v.Some? then Some([v.value]) else None
  }

  /** The parts of the argument: spaces removed, then split at commas. */
  function PageParts(s: string): seq<string> {
    Split(RemoveChar(s, ' '), ',')
  }

  /** The list `out` after all parts, each contributing `values(part)`, or
      `None` when some part raises. */
  function PartsValues(parts: seq<string>, values: string -> Option<seq<int>>): Option<seq<int>>
    decreases |parts|
  {
    if parts == [] then Some([])
    else
      var init := PartsValues(parts[..|parts| - 1], values);
      var last := values(parts[|parts| - 1]);
      if init.Some? && last.Some? then Some(init.value + last.value) else None
  }

  predicate StrictlyIncreasing(xs: seq<int>) {
    forall i, j | 0 <= i < j < |xs| :: xs[i] < xs[j]
  }

  /** `x` inserted into a strictly increasing list unless already there. */
  function InsertUnique(x: int, xs: seq<int>): (r: seq<int>)
    requires StrictlyIncreasing(xs)
    ensures StrictlyIncreasing(r)
    ensures forall y :: y in r <==> y in xs || y == x
    decreases |xs|
  {
    if xs == [] then [x]
    else if x < xs[0] then [x] + xs
    else if x == xs[0] then xs
    else
      var rest := InsertUnique(x, xs[1..]);
      assert forall y | y in xs[1..] :: xs[0] < y by {
        forall y | y in xs[1..] ensures xs[0] < y {
          var k :| 0 <= k < |xs[1..]| && xs[1..][k] == y;
          assert xs[k + 1] == y;
        }
      }
      assert forall j | 0 <= j < |rest| :: xs[0] < rest[j] by {
        forall j | 0 <= j < |rest| ensures xs[0] < rest[j] {
          assert rest[j] in rest;
        }
      }
      [xs[0]] + rest
  }

  /** `sorted(set(xs))`. */
  function SortedSet(xs: seq<int>): (r: seq<int>)
    ensures StrictlyIncreasing(r)
    ensures forall y :: y in r <==> y in xs
    decreases |xs|
  {
    if xs == [] then []
    else
      var init := xs[..|xs| - 1];
      assert xs == init + [xs[|xs| - 1]];
      InsertUnique(xs[|xs| - 1], SortedSet(init))
  }

  /** The page list for a `--pages` argument, or `None` when it raises. */
  function Pages(s: string): (r: Option<seq<int>>)
    ensures r.Some? ==> StrictlyIncreasing(r.value)
  {
    var out := PartsValues(PageParts(s), PartValues);
    if out.Some? then Some(SortedSet(out.value)) else None
  }

  /** Once a part has raised, the whole argument raises. */
  lemma {:induction false} PartsValuesFails(parts: seq<string>, i: nat, values: string -> Option<seq<int>>)
    requires i <= |parts| && PartsValues(parts[..i], values).None?
    ensures PartsValues(parts, values).None?
    decreases |parts| - i
  {
    if i < |parts| {
      assert parts[..i + 1][..i] == parts[..i];
      PartsValuesFails(parts, i + 1, values);
    } else {
      assert parts[..i] == parts;
    }
  }

  /** One more part: its contribution is appended, or the parse fails. */
  lemma PartsValuesStep(parts: seq<string>, i: nat, values: string -> Option<seq<int>>)
    requires i < |parts|
    ensures PartsValues(parts[..i + 1], values)
      == if PartsValues(parts[..i], values).Some? && values(parts[i]).Some?
         then Some(PartsValues(parts[..i], values).value + values(parts[i]).value) else None
  {
    assert parts[..i + 1][..i] == parts[..i];
  }

  /** The body of the loop of `_parse_pages` for one part: what it adds to
      `out`, or `None` when `int` raises. */
  method ParsePart(part: string) returns (values: Option<seq<int>>)
    ensures values == PartValues(part)
  {
    if '-' in part {
      var k := IndexOf(part, '-');
      var a := ParseInt(part[..k]);
      var b := ParseInt(part[k + 1..]);
      assert PartValues(part) == Bounds(a, b);
      if a.None? || b.None? {
        return None;
      }
      BoundsSome(a, b);
      values := Some(Range(a.value, b.value + 1));
    } else {
      var v := ParseInt(part);
      assert PartValues(part) == if v.Some? then Some([v.value]) else None;
      if v.None? {
        return None;
      }
      values := Some([v.value]);
    }
  }

  /** `_parse_pages`. */
  method ParsePages(s: string) returns (r: Option<seq<int>>)
    ensures r == Pages(s)
  {
    var out: seq<int> := [];
    var parts := Split(RemoveChar(s, ' '), ',');
    for i := 0 to |parts|
      invariant PartsValues(parts[..i], PartValues) == Some(out)
    {
      PartsValuesStep(parts, i, PartValues);
      var values := ParsePart(parts[i]);
      if values.None? {
        PartsValuesFails(parts, i + 1, PartValues);
        return None;
      }
      out := out + values.value;
    }
    assert parts[..|parts|] == parts;
    r := Some(SortedSet(out));
  }

  /** The list `out` holds exactly the contributions of the parts. */
  lemma {:induction false} PartsValuesMembers(parts: seq<string>, x: int, values: string -> Option<seq<int>>)
    requires PartsValues(parts, values).Some?
    ensures forall k | 0 <= k < |parts| :: values(parts[k]).Some?
    ensures x in PartsValues(parts, values).value <==> exists k | 0 <= k < |parts| :: x in values(parts[k]).value
    decreases |parts|
  {
    if parts != [] {
      var init := parts[..|parts| - 1];
      PartsValuesMembers(init, x, values);
      assert forall k | 0 <= k < |init| :: init[k] == parts[k];
    }
  }

  /** A part raises exactly when the whole argument raises. */
  lemma {:induction false} PartsValuesNone(parts: seq<string>, values: string -> Option<seq<int>>)
    ensures PartsValues(parts, values).None? <==> exists k | 0 <= k < |parts| :: values(parts[k]).None?
    decreases |parts|
  {
    if parts != [] {
      var init := parts[..|parts| - 1];
      PartsValuesNone(init, values);
      assert forall k | 0 <= k < |init| :: init[k] == parts[k];
    }
  }

  /** The pages are the union of the parts' contributions, and the argument
      is refused exactly when one of its parts is. */
  lemma PagesUnion(s: string)
    ensures Pages(s).None? <==> exists k | 0 <= k < |PageParts(s)| :: PartValues(PageParts(s)[k]).None?
    ensures Pages(s).Some? ==> forall x :: (x in Pages(s).value
      <==> exists k | 0 <= k < |PageParts(s)| :: x in PartValues(PageParts(s)[k]).value)
  {
    var parts := PageParts(s);
    PartsValuesNone(parts, PartValues);
    if Pages(s).Some? {
      forall x ensures x in Pages(s).value <==> exists k | 0 <= k < |parts| :: x in PartValues(parts[k]).value {
        PartsValuesMembers(parts, x, PartValues);
      }
    }
  }

  /** Removing a character that does not occur changes nothing. */
  lemma {:induction false} RemoveCharNoop(s: string, c: char)
    requires c !in s
    ensures RemoveChar(s, c) == s
    decreases |s|
  {
    if s != [] {
      assert c !in s[1..];
      RemoveCharNoop(s[1..], c);
    }
  }

  /** Spaces anywhere in the argument are ignored. */
  lemma PagesIgnoreSpaces(s: string)
    ensures Pages(RemoveChar(s, ' ')) == Pages(s)
  {
    RemoveCharNoop(RemoveChar(s, ' '), ' ');
  }

  /** `a-b` contributes exactly the pages from `a` to `b` inclusive, none
      when `b < a`. */
  lemma RangePart(a: nat, b: nat)
    ensures var r := PartValues(NatToString(a) + "-" + NatToString(b));
      && r == Some(Range(a, b + 1))
      && (forall x :: x in r.value <==> a <= x <= b)
      && (b < a ==> r.value == [])
  {
    StringIsDigitGroups(a);
    DashPart(NatToString(a), NatToString(b));
    ParseIntOfString(a);
    ParseIntOfString(b);
    BoundsSome(Some(a), Some(b));
    RangeMembers(a, b + 1);
  }

  /** A part with a dash is read as two bounds around the first dash. */
  lemma DashPart(lower: string, upper: string)
    requires '-' !in lower
    ensures PartValues(lower + "-" + upper) == Bounds(ParseInt(lower), ParseInt(upper))
  {
    IndexOfConcat(lower, '-', upper);
  }

  /** A part without a dash contributes its number. */
  lemma SinglePart(n: nat)
    ensures PartValues(NatToString(n)) == Some([n])
  {
    StringIsDigitGroups(n);
    ParseIntOfString(n);
  }

  /** A dash with nothing before it (`-1`) raises. */
  lemma LeadingDashFails(n: nat)
    ensures PartValues("-" + NatToString(n)) == None
  {
    IndexOfConcat("", '-', NatToString(n));
    assert "" + ['-'] + NatToString(n) == "-" + NatToString(n);
  }

  /** A string that starts with a digit and holds a dash is not a number. */
  lemma DashInsideNotNumber(u: string, i: nat)
    requires 0 < i < |u| && IsDigit(u[0]) && IsDigit(u[|u| - 1]) && u[i] == '-'
    ensures ParseInt(u) == None
  {
    StripNoop(u);
    assert !DigitGroups(u);
  }

  /** The text after the first dash of `b-c` is not a number. */
  lemma DashedNotNumber(b: nat, c: nat)
    ensures ParseInt(NatToString(b) + "-" + NatToString(c)) == None
  {
    var sb, sc := NatToString(b), NatToString(c);
    StringIsDigitGroups(b);
    StringIsDigitGroups(c);
    var upper := sb + "-" + sc;
    assert upper[0] == sb[0] && upper[|sb|] == '-' && upper[|upper| - 1] == sc[|sc| - 1];
    DashInsideNotNumber(upper, |sb|);
  }

  /** A part whose text after the first dash is not a number raises. */
  lemma UpperBoundFails(lower: string, upper: string)
    requires '-' !in lower && ParseInt(upper) == None
    ensures PartValues(lower + "-" + upper) == None
  {
    DashPart(lower, upper);
  }

  /** Two dashes (`1-2-3`) make the upper bound unparsable. */
  lemma TwoDashesFail(a: nat, b: nat, c: nat)
    ensures PartValues(NatToString(a) + "-" + NatToString(b) + "-" + NatToString(c)) == None
  {
    var sa, sb, sc := NatToString(a), NatToString(b), NatToString(c);
    StringIsDigitGroups(a);
    DashedNotNumber(b, c);
    UpperBoundFails(sa, sb + "-" + sc);
    ConcatTail(sa, "-", sb, "-", sc);
  }

  /** Inserting a value above all others appends it. */
  lemma {:induction false} InsertUniqueAbove(x: int, xs: seq<int>)
    requires StrictlyIncreasing(xs) && forall k | 0 <= k < |xs| :: xs[k] < x
    ensures InsertUnique(x, xs) == xs + [x]
    decreases |xs|
  {
    if xs != [] {
      InsertUniqueAbove(x, xs[1..]);
      assert [xs[0]] + (xs[1..] + [x]) == xs + [x];
    }
  }

  /** A list that is already strictly increasing is its own `sorted(set(...))`. */
  lemma {:induction false} SortedSetOfIncreasing(xs: seq<int>)
    requires StrictlyIncreasing(xs)
    ensures SortedSet(xs) == xs
    decreases |xs|
  {
    if xs != [] {
      var init := xs[..|xs| - 1];
      SortedSetOfIncreasing(init);
      InsertUniqueAbove(xs[|xs| - 1], init);
      assert init + [xs[|xs| - 1]] == xs;
    }
  }

  /** A single part is the whole argument when it has no comma or space. */
  lemma OnePart(part: string)
    requires ',' !in part && ' ' !in part
    ensures PageParts(part) == [part]
  {
    RemoveCharNoop(part, ' ');
  }

  /** A lone part that contributes `values` gives `values` as `out`. */
  lemma OnePartValues(part: string, values: seq<int>)
    requires PartValues(part) == Some(values)
    ensures PartsValues([part], PartValues) == Some(values)
  {
    PartsValuesStep([part], 0, PartValues);
    assert [part][..1] == [part] && [part][..0] == [];
    assert [] + values == values;
  }

  /** The argument `a-b` gives the pages from `a` to `b`, in order. */
  lemma RangeArgument(a: nat, b: nat)
    ensures Pages(NatToString(a) + "-" + NatToString(b)) == Some(Range(a, b + 1))
  {
    var part := NatToString(a) + "-" + NatToString(b);
    assert PageParts(part) == [part] by {
      StringIsDigitGroups(a);
      StringIsDigitGroups(b);
      assert ',' !in part && ' ' !in part;
      OnePart(part);
    }
    assert PartsValues([part], PartValues) == Some(Range(a, b + 1)) by {
      RangePart(a, b);
      OnePartValues(part, Range(a, b + 1));
    }
    SortedSetOfIncreasing(Range(a, b + 1));
  }

  /** The parts of `a,b,c` when none of them has a comma or a space. */
  lemma ThreeParts(sa: string, sb: string, sc: string)
    requires ',' !in sa && ',' !in sb && ',' !in sc
    requires ' ' !in sa && ' ' !in sb && ' ' !in sc
    ensures PageParts(sa + "," + sb + "," + sc) == [sa, sb, sc]
  {
    var s := sa + "," + sb + "," + sc;
    assert ' ' !in s by {
      ConcatTail(sa, ",", sb, ",", sc);
      assert ' ' !in sb + "," + sc;
    }
    RemoveCharNoop(s, ' ');
    SplitThree(sa, sb, sc);
  }

  lemma SplitThree(sa: string, sb: string, sc: string)
    requires ',' !in sa && ',' !in sb && ',' !in sc
    ensures Split(sa + "," + sb + "," + sc, ',') == [sa, sb, sc]
  {
    var tail := sb + "," + sc;
    ConcatTail(sa, ",", sb, ",", sc);
    assert Split(tail, ',') == [sb, sc] by {
      SplitConcat(sb, ',', sc);
      assert Split(sc, ',') == [sc];
    }
    SplitConcat(sa, ',', tail);
  }

  /** Three parts that contribute one number each give those numbers. */
  lemma ThreePartsValues(parts: seq<string>, values: string -> Option<seq<int>>, a: int, b: int, c: int)
    requires |parts| == 3
    requires values(parts[0]) == Some([a]) && values(parts[1]) == Some([b]) && values(parts[2]) == Some([c])
    ensures PartsValues(parts, values) == Some([a, b, c])
  {
    PartsValuesStep(parts, 0, values);
    assert parts[..0] == [];
    assert [] + [a] == [a] && [a] + [b] == [a, b] && [a, b] + [c] == [a, b, c];
    assert PartsValues(parts[..1], values) == Some([a]);
    PartsValuesStep(parts, 1, values);
    assert PartsValues(parts[..2], values) == Some([a, b]);
    PartsValuesStep(parts, 2, values);
    assert parts[..3] == parts;
  }

  /** The argument `a,b,c` for increasing numbers gives `[a, b, c]`. */
  lemma ListArgument(a: nat, b: nat, c: nat)
    requires a < b < c
    ensures Pages(NatToString(a) + "," + NatToString(b) + "," + NatToString(c)) == Some([a, b, c])
  {
    var parts := [NatToString(a), NatToString(b), NatToString(c)];
    assert PageParts(NatToString(a) + "," + NatToString(b) + "," + NatToString(c)) == parts by {
      StringIsDigitGroups(a);
      StringIsDigitGroups(b);
      StringIsDigitGroups(c);
      ThreeParts(NatToString(a), NatToString(b), NatToString(c));
    }
    assert PartsValues(parts, PartValues) == Some([a, b, c]) by {
      SinglePart(a);
      SinglePart(b);
      SinglePart(c);
      ThreePartsValues(parts, PartValues, a, b, c);
    }
    SortedSetOfIncreasing([a, b, c]);
  }

  /** `"0,1,2"` and `"0-2"` (and every such pair) give the same pages. */
  lemma ListAndRangeAgree(a: nat)
    ensures Pages(NatToString(a) + "," + NatToString(a + 1) + "," + NatToString(a + 2)) == Some([a, a + 1, a + 2])
    ensures Pages(NatToString(a) + "-" + NatToString(a + 2)) == Some([a, a + 1, a + 2])
  {
    ListArgument(a, a + 1, a + 2);
    RangeArgument(a, a + 2);
    assert Range(a, a + 3) == [a, a + 1, a + 2] by {
      var r := Range(a, a + 3);
      assert |r| == 3 && r[0] == a && r[1] == a + 1 && r[2] == a + 2;
    }
  }

  /** A trailing comma leaves an empty part, which raises. */
  lemma TrailingCommaFails(s: string)
    requires ',' !in s && ' ' !in s
    ensures Pages(s + ",") == None
  {
    var t := s + ",";
    RemoveCharNoop(t, ' ');
    SplitConcat(s, ',', "");
    assert t == s + [','] + "";
    assert PageParts(t) == [s, ""];
    PartsValuesNone(PageParts(t), PartValues);
    assert PartValues(PageParts(t)[1]).None?;
  }

  // ---------------------------------------------------------------------
  // `_pdf2md`

  /** `args.output` when given, otherwise `output/<stem>.md`. */
  function OutputPath(input: string, output: Option<string>): (r: string)
    ensures output.Some? && output.value != "" ==> r == output.value
  {
    if output.Some? && output.value != "" then output.value
    else "output/" + (Paths.Stem(Paths.Name(input)) + ".md")
  }

  /** The default output file is named after the input's stem, with the
      suffix `.md`, in the directory `output`. */
  lemma DefaultOutputPath(input: string)
    requires Paths.Stem(Paths.Name(input)) != ""
    ensures var out := OutputPath(input, None);
      && Paths.Name(out) == Paths.Stem(Paths.Name(input)) + ".md"
      && Paths.Stem(Paths.Name(out)) == Paths.Stem(Paths.Name(input))
      && Paths.Suffix(Paths.Name(out)) == ".md"
  {
    var name := Paths.Name(input);
    var stem := Paths.Stem(name);
    Paths.StemSuffix(name);
    assert '/' !in stem by {
      assert forall k | 0 <= k < |stem| :: stem[k] == name[k];
    }
    assert '/' !in stem + ".md";
    Paths.NameOfJoined("output", stem + ".md");
    assert "output/" + (stem + ".md") == "output" + "/" + (stem + ".md");
    Paths.StemOfAppended(stem, ".md");
  }

  /** What `_pdf2md` ends with. A malformed `--pages` raises out of the
      function (the call sits before the `try`). */
  datatype Outcome =
    | FileMissing
    | NotPdf
    | PagesRaised
    | ConvertFailed(message: string)
    | Wrote(path: string, markdown: string)

  /** The exit code, `None` when an exception escapes. */
  function ExitCode(o: Outcome): (code: Option<int>)
    ensures code == Some(0) <==> o.Wrote?
    ensures code == Some(1) <==> o.FileMissing? || o.NotPdf? || o.ConvertFailed?
    ensures code.None? <==> o.PagesRaised?
  {
    match o
    case FileMissing => Some(1)
    case NotPdf => Some(1)
    case PagesRaised => None
    case ConvertFailed(_) => Some(1)
    case Wrote(_, _) => Some(0)
  }

  /** `_pdf2md` for an input path (with whether it exists), the `-o`,
      `--pages` and `--engine` arguments, and the backends. */
  function Pdf2md(input: string, found: bool, output: Option<string>, pages: Option<string>,
                  engine: string, backends: Registry.Backends): (r: Outcome)
    ensures r == FileMissing <==> !found
    ensures r == NotPdf <==> found && Lower(Paths.Suffix(Paths.Name(input))) != ".pdf"
    ensures r.Wrote? ==> found && Lower(Paths.Suffix(Paths.Name(input))) == ".pdf"
    ensures r.Wrote? ==> r.path == OutputPath(input, output)
  {
    if !found then FileMissing
    else if Lower(Paths.Suffix(Paths.Name(input))) != ".pdf" then NotPdf
    else
      var outPath := OutputPath(input, output);
      var pageList := if pages.Some? && pages.value != "" then Pages(pages.value) else Some([]);
      if pageList.None? then PagesRaised
      else
        var selected := if pages.Some? && pages.value != "" then pageList else None;
        match Registry.Convert(input, selected, engine, backends)
        case Failure(e) => ConvertFailed(e)
        case Success(md) => Wrote(outPath, md)
  }

  /** A missing file is reported before anything else is looked at. */
  lemma MissingBeforeSuffix(input: string, output: Option<string>, pages: Option<string>,
                            engine: string, backends: Registry.Backends)
    ensures Pdf2md(input, false, output, pages, engine, backends) == FileMissing
    ensures ExitCode(Pdf2md(input, false, output, pages, engine, backends)) == Some(1)
  {
  }

  /** A malformed page list escapes as an exception whatever the engine
      and the backends. */
  lemma BadPagesRaise(input: string, output: Option<string>, pages: string,
                      engine: string, backends: Registry.Backends)
    requires Lower(Paths.Suffix(Paths.Name(input))) == ".pdf"
    requires pages != "" && Pages(pages).None?
    ensures Pdf2md(input, true, output, Some(pages), engine, backends) == PagesRaised
    ensures ExitCode(Pdf2md(input, true, output, Some(pages), engine, backends)).None?
  {
  }

  /** The name, suffix and stem of `dir/doc.pdf`. */
  lemma DocPdf(dir: string)
    ensures var name := Paths.Name(dir + "/" + ("doc" + ".pdf"));
      && Lower(Paths.Suffix(name)) == ".pdf" && Paths.Stem(name) == "doc"
  {
    Paths.NameOfJoined(dir, "doc" + ".pdf");
    Paths.StemOfAppended("doc", ".pdf");
    LowerNoop(".pdf");
  }

  /** `doc.pdf` without `-o` and with the default engine is written to
      `output/doc.md` when the backend succeeds. */
  lemma DefaultOutputDir(dir: string, backends: Registry.Backends, md: string)
    requires backends.pymupdf(dir + "/" + ("doc" + ".pdf"), None) == Success(md)
    ensures Pdf2md(dir + "/" + ("doc" + ".pdf"), true, None, None, "pymupdf", backends)
      == Wrote("output/" + ("doc" + ".md"), md)
  {
    var input := dir + "/" + ("doc" + ".pdf");
    DocPdf(dir);
    Registry.GetEngineAcceptsOwnNames();
    assert Registry.Convert(input, None, "pymupdf", backends) == Success(md);
    assert OutputPath(input, None) == "output/" + ("doc" + ".md");
  }

  /** The suffix decides, in any letter case: `dir/stem.ext` is refused as
      not a PDF exactly when `ext` is not `.pdf` up to case. */
  lemma PdfSuffixDecides(dir: string, stem: string, ext: string, output: Option<string>, pages: Option<string>,
                         engine: string, backends: Registry.Backends)
    requires stem != [] && |ext| >= 2 && ext[0] == '.' && '.' !in ext[1..]
    requires '/' !in stem && '/' !in ext
    ensures Pdf2md(dir + "/" + (stem + ext), true, output, pages, engine, backends) == NotPdf
      <==> Lower(ext) != ".pdf"
  {
    Paths.SuffixOfJoined(dir, stem, ext);
  }

  /** An upper-case `.PDF` is not refused: the comparison ignores case. */
  lemma UpperCasePdfAccepted(dir: string, stem: string, output: Option<string>, pages: Option<string>,
                             engine: string, backends: Registry.Backends)
    requires stem != [] && '/' !in stem
    ensures Pdf2md(dir + "/" + (stem + ".PDF"), true, output, pages, engine, backends) != NotPdf
  {
    PdfSuffixDecides(dir, stem, ".PDF", output, pages, engine, backends);
  }

}
