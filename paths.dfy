/** The two pieces of `std::path::Path` the library relies on, on '/'-separated paths:
    `file_name` (the last normal component) and `extension` (the text after its last dot). */
module Paths {
  import opened Wrappers
  import opened Text
  import Seqs

  /** The pieces of `s` between occurrences of `sep`. */
  function Split(s: string, sep: char): (r: seq<string>)
    ensures |r| >= 1
    ensures forall k :: 0 <= k < |r| ==> sep !in r[k]
    decreases |s|
  {
    if sep !in s then [s]
    else
      var i := IndexOf(s, sep);
      [s[..i]] + Split(s[i + 1..], sep)
  }

  /** Splitting at a first separator that follows a separator-free prefix. */
  lemma SplitAtFirst(a: string, b: string, sep: char)
    requires sep !in a
    ensures Split(a + [sep] + b, sep) == [a] + Split(b, sep)
  {
    var s := a + [sep] + b;
    assert IndexOf(s, sep) == |a| by {
      assert s[|a|] == sep;
      assert s[..|a|] == a;
    }
    assert s[..|a|] == a && s[|a| + 1..] == b;
  }

  /** Appending a separator and a separator-free piece appends one segment. */
  lemma {:induction false} SplitAppend(dir: string, sep: char, name: string)
    requires sep !in name
    ensures Split(dir + [sep] + name, sep) == Split(dir, sep) + [name]
    decreases |dir|
  {
    if sep !in dir {
      SplitAtFirst(dir, name, sep);
    } else {
      var i := IndexOf(dir, sep);
      var head, rest := dir[..i], dir[i + 1..];
      assert dir + [sep] + name == head + [sep] + (rest + [sep] + name) by {
        assert dir == head + [sep] + rest;
      }
      calc {
        Split(dir + [sep] + name, sep);
        { SplitAtFirst(head, rest + [sep] + name, sep); }
        [head] + Split(rest + [sep] + name, sep);
        { SplitAppend(rest, sep, name); }
        [head] + (Split(rest, sep) + [name]);
        ([head] + Split(rest, sep)) + [name];
        Split(dir, sep) + [name];
      }
    }
  }

  predicate IsNormalComponent(seg: string) {
    seg != "" && seg != "."
  }

  /** Components of a path, with empty and `.` pieces dropped as `Path::components` does. */
  function Components(p: string): (r: seq<string>)
    ensures forall k :: 0 <= k < |r| ==> IsNormalComponent(r[k]) && '/' !in r[k]
  {
    Seqs.Filter(Split(p, '/'), IsNormalComponent)
  }

  /** `Path::file_name`: the last component, unless the path ends in `..` or has none. */
  function FileName(p: string): (r: Option<string>)
    ensures r.Some? ==> r.value != "" && r.value != "." && r.value != ".." && '/' !in r.value
    ensures r.Some? <==> Components(p) != [] && Components(p)[|Components(p)| - 1] != ".."
    ensures r.Some? ==> r.value == Components(p)[|Components(p)| - 1]
  {
    var cs := Components(p);
    if cs == [] || cs[|cs| - 1] == ".." then None else Some(cs[|cs| - 1])
  }

  /** `Path::extension`: the text after the last `.` of the file name; none when the
      name has no `.` or its only `.` is the leading one. */
  function Extension(p: string): (r: Option<string>)
    ensures r.Some? ==> FileName(p).Some? && '.' !in r.value
    ensures r.Some? ==> var n := FileName(p).value;
      |r.value| + 1 < |n| && n[|n| - |r.value| - 1] == '.' && n[|n| - |r.value|..] == r.value
    ensures r.None? <==>
      (FileName(p).None? || '.' !in FileName(p).value ||
       (FileName(p).value[0] == '.' && '.' !in FileName(p).value[1..]))
  {
    match FileName(p)
    case None => None
    case Some(name) =>
      if '.' !in name then None
      else
        var i := LastIndexOf(name, '.');
        if i == 0 then
          assert '.' !in name[1..];
          None
        else
          assert name[0] == '.' ==> name[i] in name[1..];
          Some(name[i + 1..])
  }

  /** A bare file name with no separator is its own file name. */
  lemma FileNameOfBareName(name: string)
    requires '/' !in name && name != "" && name != "." && name != ".."
    ensures FileName(name) == Some(name)
  {
    assert Split(name, '/') == [name];
    assert Components(name) == [name];
  }

  /** The file name of `dir/name` is `name`, whatever `dir` is. */
  lemma FileNameOfChild(dir: string, name: string)
    requires '/' !in name && name != "" && name != "." && name != ".."
    ensures FileName(dir + "/" + name) == Some(name)
  {
    SplitAppend(dir, '/', name);
    Seqs.FilterAppend(Split(dir, '/'), [name], IsNormalComponent);
    assert Seqs.Filter([name], IsNormalComponent) == [name];
  }

  /** A file named `stem.ext` with a non-empty stem has extension `ext`; the stem may itself be
      `.`, so `..json` has extension `json`. */
  lemma ExtensionOfName(p: string, stem: string, ext: string)
    requires FileName(p) == Some(stem + "." + ext)
    requires '.' !in ext && stem != ""
    ensures Extension(p) == Some(ext)
  {
    var n := stem + "." + ext;
    assert n[|stem|] == '.';
    assert n[|stem| + 1..] == ext;
    LastIndexOfIs(n, '.', |stem|);
    assert n[1..][|stem| - 1] == '.';
  }
}
