/** `include_path`: which files of the input directory are read. A path is a
    string of `/`-separated components; its file name is the last component
    and its extension the text after the last `.` of the file name. */
module Parsing {
  import opened Biblatex

  /** The start of the tool's default output file name. */
  const OutputPrefix: string := "[bib_unifier]"

  /** The text after the last `c` of `s` (all of `s` when there is none). */
  function AfterLast(s: string, c: char): (r: string)
    ensures c !in r
    ensures |r| <= |s| && r == s[|s| - |r|..]
    ensures |r| < |s| ==> s[|s| - |r| - 1] == c
  {
    if s == [] then []
    else if s[|s| - 1] == c then []
    else
      var r := AfterLast(s[..|s| - 1], c) + [s[|s| - 1]];
      assert s == s[..|s| - 1] + [s[|s| - 1]];
      r
  }

  /** A last component that names no file: empty, `.` or `..`. */
  predicate DotComponent(s: string)
  {
    |s| <= 2 && forall i :: 0 <= i < |s| ==> s[i] == '.'
  }

  /** `Path::file_name`: the last component, absent when it is empty, `.` or `..`. */
  function FileName(path: string): (r: Option<string>)
    ensures r.Some? ==> |r.value| <= |path| && '/' !in r.value && r.value == path[|path| - |r.value|..]
    ensures r.Some? ==> |r.value| == |path| || path[|path| - |r.value| - 1] == '/'
    ensures r.Some? ==> !DotComponent(r.value)
    ensures r.None? ==> |path| == 0 || path[|path| - 1] == '/' || path[|path| - 1] == '.'
    ensures r.None? <==> DotComponent(AfterLast(path, '/'))
    ensures r.Some? ==> r.value == AfterLast(path, '/')
  {
    var last := AfterLast(path, '/');
    if DotComponent(last) then None else Some(last)
  }

  /** The extension of a file name: the text after its last `.`, absent when
      the name has no `.` or its only `.` is the first character. */
  function NameExtension(name: string): (r: Option<string>)
    ensures r.Some? ==> '.' !in r.value && |r.value| + 1 < |name|
                        && name[|name| - |r.value| - 1..] == "." + r.value
    ensures r.None? <==> |name| == 0 || '.' !in name[1..]
  {
    var ext := AfterLast(name, '.');
    if |ext| == |name| then
      assert ext == name;
      None
    else if |name| - |ext| - 1 == 0 then
      assert name[1..] == ext;
      None
    else
      assert name[1..][|name| - |ext| - 2] == '.';
      assert name[|name| - |ext| - 1..] == [name[|name| - |ext| - 1]] + ext;
      Some(ext)
  }

  /** `Path::extension`: the extension of the file name, absent when there is
      no file name. */
  function Extension(path: string): (r: Option<string>)
    ensures FileName(path).None? ==> r.None?
    ensures r.Some? ==> var name := FileName(path).value;
                        '.' !in r.value && |r.value| + 1 < |name|
                        && name[|name| - |r.value| - 1..] == "." + r.value
    ensures r.None? <==> FileName(path).None? || '.' !in FileName(path).value[1..]
  {
    match FileName(path)
    case None => None
    case Some(name) => NameExtension(name)
  }

  /** `include_path`: a `.bib` file that is not a previous output of the
      tool. A path is read exactly when its last component ends with `.bib`
      after at least one other character and does not start with the output
      prefix. */
  function IncludePath(path: string): (r: bool)
    ensures r <==> IsInputName(AfterLast(path, '/'))
  {
    LastComponent(path);
    BibExtension(AfterLast(path, '/'));
    match Extension(path)
    case Some(ext) =>
      if ext == "bib" then
        match FileName(path)
        case Some(name) => !(OutputPrefix <= name)
        case None => false
      else false
    case None => false
  }

  /** The file name and the extension of a path are those of its last
      component. */
  lemma LastComponent(path: string)
    ensures var last := AfterLast(path, '/');
            (FileName(path).None? ==> |last| <= 2)
            && (FileName(path).Some? ==> FileName(path).value == last && Extension(path) == NameExtension(last))
  {
  }

  /** The last `c`-separated part of `a + [c] + b` is `b` when `b` has no `c`. */
  lemma AfterLastSplit(a: string, c: char, b: string)
    requires c !in b
    ensures AfterLast(a + [c] + b, c) == b
  {
    var s := a + [c] + b;
    assert s[|s| - |b| - 1] == c;
    assert forall i :: |s| - |b| <= i < |s| ==> s[i] == b[i - (|s| - |b|)];
  }

  /** A file name has the extension `bib` exactly when it ends with `.bib`
      after at least one other character. */
  lemma BibExtension(name: string)
    ensures NameExtension(name) == Some("bib") <==> |name| > 4 && name[|name| - 4..] == ".bib"
  {
    if |name| > 4 && name[|name| - 4..] == ".bib" {
      var stem := name[..|name| - 4];
      assert name == stem + ['.'] + "bib";
      AfterLastSplit(stem, '.', "bib");
    }
  }

  /** A file name that ends with `.bib` after at least one other character
      and does not start with the output prefix. */
  predicate IsInputName(name: string)
  {
    |name| > 4 && name[|name| - 4..] == ".bib" && !(OutputPrefix <= name)
  }

  /** For a path `dir/name`, only `name` decides, whatever the directory is
      called (a directory named like the output does not exclude its files). */
  lemma IncludePathInDirectory(dir: string, name: string)
    requires '/' !in name
    ensures IncludePath(dir + "/" + name) <==> IsInputName(name)
  {
    AfterLastSplit(dir, '/', name);
  }

  /** The test `test_include_path`, in any directory: `test1.bib` is read (and
      `[bib_unifier]test1.bib` is not, by OutputNeverIncluded). */
  lemma IncludePathTestBib(dir: string)
    ensures IncludePath(dir + "/" + "test1.bib")
  {
    var name := "test1.bib";
    assert |name| < |OutputPrefix|;
    assert name[|name| - 4..] == ".bib";
    IncludePathInDirectory(dir, name);
  }

  /** The test `test_include_path`, in any directory: `test1.txt` is not read. */
  lemma IncludePathTestTxt(dir: string)
    ensures !IncludePath(dir + "/" + "test1.txt")
  {
    IncludePathInDirectory(dir, "test1.txt");
  }

  /** The extension is compared case-sensitively: `x.BIB` is not read. */
  lemma IncludePathUpperCase(dir: string)
    ensures !IncludePath(dir + "/" + "x.BIB")
  {
    var upper := "x.BIB";
    assert upper[|upper| - 4..] != ".bib" by { assert upper[2] != ".bib"[1]; }
    IncludePathInDirectory(dir, upper);
  }

  /** A name that is only `.bib` has no extension, and is not read. */
  lemma IncludePathBareExtension(dir: string)
    ensures !IncludePath(dir + "/" + ".bib")
  {
    IncludePathInDirectory(dir, ".bib");
  }

  /** The tool's own output, wherever it was written, is never read back. */
  lemma OutputNeverIncluded(dir: string, rest: string)
    requires '/' !in rest
    ensures !IncludePath(dir + "/" + OutputPrefix + rest)
  {
    assert dir + "/" + OutputPrefix + rest == dir + "/" + (OutputPrefix + rest);
    IncludePathInDirectory(dir, OutputPrefix + rest);
  }
}
