/**
 * The parts of a file path that the converters and the command line look at:
 * `Path(p).name`, `.suffix` and `.stem` (POSIX separators).
 */
module Paths {
  import opened Wrappers
  import opened Text

  /** Index of the last occurrence of `c` in `s` (`s.rfind(c)`), if any. */
  function LastIndexOf(s: string, c: char): (r: Option<nat>)
    ensures r.None? <==> c !in s
    ensures r.Some? ==> r.value < |s| && s[r.value] == c && c !in s[r.value + 1..]
    decreases |s|
  {
    if s == [] then None
    else if s[|s| - 1] == c then Some(|s| - 1)
    else
      var init := s[..|s| - 1];
      assert s == init + [s[|s| - 1]];
      var r := LastIndexOf(init, c);
      if r.Some? then
        assert s[r.value + 1..] == init[r.value + 1..] + [s[|s| - 1]];
        r
      else r
  }

  /** `p` without its trailing slashes. */
  function DropTrailingSlashes(p: string): (r: string)
    ensures |r| <= |p|
    ensures r == [] || r[|r| - 1] != '/'
  {
    if p != [] && p[|p| - 1] == '/' then DropTrailingSlashes(p[..|p| - 1]) else p
  }

  /** `Path(p).name`: the last component of the path. */
  function Name(p: string): (r: string)
    ensures '/' !in r
  {
    var parts := Split(DropTrailingSlashes(p), '/');
    parts[|parts| - 1]
  }

  /** The index of the dot that starts the suffix of `name`, when there is
      one: the last dot, neither the first nor the last character. */
  function SuffixDot(name: string): (r: Option<nat>)
    ensures r.Some? ==> 0 < r.value < |name| - 1 && name[r.value] == '.'
  {
    var i := LastIndexOf(name, '.');
    if i.Some? && 0 < i.value < |name| - 1 then i else None
  }

  /** `Path.suffix` of a file name. */
  function Suffix(name: string): (r: string)
    ensures r != "" ==> |r| >= 2 && r[0] == '.' && '.' !in r[1..]
  {
    var i := SuffixDot(name);
    if i.Some? then
      assert name[i.value..][1..] == name[i.value + 1..];
      name[i.value..]
    else ""
  }

  /** `Path.stem` of a file name. */
  function Stem(name: string): (r: string)
  {
    var i := SuffixDot(name);
    if i.Some? then name[..i.value] else name
  }

  /** A file name is its stem followed by its suffix. */
  lemma StemSuffix(name: string)
    ensures Stem(name) + Suffix(name) == name
  {
    var i := SuffixDot(name);
    if i.Some? {
      assert name[..i.value] + name[i.value..] == name;
    }
  }

  /** The stem of `stem + ext`, for a one-dot extension and a non-empty stem,
      is `stem`. */
  lemma StemOfAppended(stem: string, ext: string)
    requires stem != [] && |ext| >= 2 && ext[0] == '.' && '.' !in ext[1..]
    ensures Stem(stem + ext) == stem && Suffix(stem + ext) == ext
  {
    var name := stem + ext;
    var i := LastIndexOf(name, '.');
    assert name[|stem|] == '.';
    assert name[|stem| + 1..] == ext[1..];
    assert i.Some?;
    assert i.value == |stem|;
  }

  /** The name of `dir + "/" + name` is `name`, for a file name `name`. */
  lemma NameOfJoined(dir: string, name: string)
    requires name != [] && '/' !in name
    ensures Name(dir + "/" + name) == name
  {
    var p := dir + "/" + name;
    assert DropTrailingSlashes(p) == p;
    assert p == dir + ['/'] + name;
    SplitLast(dir, '/', name);
  }

  /** The suffix of the name of `dir/stem.ext` is `.ext`. */
  lemma SuffixOfJoined(dir: string, stem: string, ext: string)
    requires stem != [] && |ext| >= 2 && ext[0] == '.' && '.' !in ext[1..]
    requires '/' !in stem && '/' !in ext
    ensures Suffix(Name(dir + "/" + (stem + ext))) == ext
  {
    assert '/' !in stem + ext;
    NameOfJoined(dir, stem + ext);
    StemOfAppended(stem, ext);
  }
}
