/**
  Path arithmetic behind the name of a downloaded file: the last element of
  the URL (Go's filepath.Base with '/' as separator), the removal of one
  ".csv" suffix, and the join with the task directory.
 */
module Paths {

  const Separator: char := '/'
  const CsvSuffix: string := ".csv"

  predicate EndsWith(s: string, suffix: string)
  {
    |suffix| <= |s| && s[|s| - |suffix|..] == suffix
  }

  /** `elem` is the last element of `path`: a separator-free suffix that is
      either all of `path` or preceded by a separator. */
  predicate FinalElement(elem: string, path: string)
  {
    && Separator !in elem
    && EndsWith(path, elem)
    && (|elem| == |path| || path[|path| - |elem| - 1] == Separator)
  }

  /** `path` with all trailing separators removed. */
  function StripTrailingSeparators(path: string): (r: string)
    ensures r <= path
    ensures r == [] || r[|r| - 1] != Separator
    ensures forall i :: |r| <= i < |path| ==> path[i] == Separator
    decreases |path|
  {
    if path != [] && path[|path| - 1] == Separator then
      StripTrailingSeparators(path[..|path| - 1])
    else
      path
  }

  /** The characters after the last separator of `path`. */
  function LastElement(path: string): (r: string)
    ensures FinalElement(r, path)
    ensures path != [] && path[|path| - 1] != Separator ==> r != []
    decreases |path|
  {
    if path == [] || path[|path| - 1] == Separator then
      []
    else
      var init := path[..|path| - 1];
      var r := LastElement(init) + [path[|path| - 1]];
      assert path[|path| - |r|..] == init[|init| - (|r| - 1)..] + [path[|path| - 1]];
      r
  }

  /** Go's filepath.Base with '/' as the separator. The result is never
      empty and holds a separator only when it is "/" itself. */
  function Base(path: string): string
  {
    if path == [] then "."
    else
      var stripped := StripTrailingSeparators(path);
      if stripped == [] then [Separator] else LastElement(stripped)
  }

  /** The base is never empty: "." for the empty path, "/" for a path made
      only of separators, otherwise the last element once trailing
      separators are gone. */
  lemma BaseShape(path: string)
    ensures Base(path) != []
    ensures path == [] ==> Base(path) == "."
    ensures path != [] && StripTrailingSeparators(path) == [] ==> Base(path) == [Separator]
    ensures StripTrailingSeparators(path) != [] ==> FinalElement(Base(path), StripTrailingSeparators(path))
  {
  }

  /** strings.TrimSuffix: `s` without `suffix` when it ends with it, else `s`. */
  function TrimSuffix(s: string, suffix: string): string
  {
    if EndsWith(s, suffix) then s[..|s| - |suffix|] else s
  }

  /** filepath.Join for a clean, non-empty directory and a plain file name. */
  function Join(dir: string, name: string): string
  {
    dir + [Separator] + name
  }

  /** The dated file name for a stem: "<stem>-<today>.csv". */
  function FileName(stem: string, today: string): string
  {
    stem + "-" + today + CsvSuffix
  }

  /** The file a download of `url` on day `today` is saved as, inside `dir`. */
  function OutputPath(dir: string, url: string, today: string): string
  {
    Join(dir, FileName(TrimSuffix(Base(url), CsvSuffix), today))
  }

  /** The pieces of a joined file name can be read back by position. */
  lemma JoinedFileNameParts(dir: string, stem: string, today: string)
    ensures var r := Join(dir, FileName(stem, today));
      && |r| == |dir| + 1 + |stem| + 1 + |today| + |CsvSuffix|
      && r[..|dir| + 1] == dir + [Separator]
      && r[|dir| + 1..] == FileName(stem, today)
      && r[|dir| + 1..|r| - |today| - 5] == stem
      && r[|r| - |today| - 5..] == "-" + today + CsvSuffix
  {
    var r := Join(dir, FileName(stem, today));
    var tail := "-" + today + CsvSuffix;
    assert r == (dir + [Separator]) + (stem + tail);
  }

  /** A separator-free stem and date give a separator-free file name. */
  lemma FileNameHasNoSeparator(stem: string, today: string)
    requires Separator !in stem && Separator !in today
    ensures Separator !in FileName(stem, today)
  {
    assert Separator !in "-";
    assert Separator !in CsvSuffix;
  }

  /** TrimSuffix only ever shortens its argument. */
  lemma TrimSuffixIsPrefix(s: string, suffix: string)
    ensures TrimSuffix(s, suffix) <= s
  {
  }

  /** The output path is "<dir>/", then the URL's base with at most one
      ".csv" removed, then "-<today>.csv". */
  lemma OutputPathShape(dir: string, url: string, today: string)
    ensures var r := OutputPath(dir, url, today);
      && |dir| + 1 + |today| + 5 <= |r|
      && r[..|dir| + 1] == dir + [Separator]
      && EndsWith(r, "-" + today + CsvSuffix)
      && var stem := r[|dir| + 1..|r| - |today| - 5];
         || stem + CsvSuffix == Base(url)
         || (stem == Base(url) && !EndsWith(Base(url), CsvSuffix))
  {
    var base := Base(url);
    var stem := TrimSuffix(base, CsvSuffix);
    TrimSuffixRoundTrip(stem, base, CsvSuffix);
    JoinedFileNameParts(dir, stem, today);
  }

  /** The file lands directly in `dir`: with a separator-free date and a URL
      that is not all separators, nothing after "<dir>/" is a separator. */
  lemma OutputPathInDirectory(dir: string, url: string, today: string)
    requires Separator !in today && StripTrailingSeparators(url) != []
    ensures Separator !in OutputPath(dir, url, today)[|dir| + 1..]
  {
    BaseShape(url);
    var base := Base(url);
    var stem := TrimSuffix(base, CsvSuffix);
    TrimSuffixIsPrefix(base, CsvSuffix);
    FileNameHasNoSeparator(stem, today);
    JoinedFileNameParts(dir, stem, today);
  }

  /** TrimSuffix undoes appending the suffix, and appending it back restores
      a string that had it. */
  lemma TrimSuffixRoundTrip(x: string, s: string, suffix: string)
    ensures TrimSuffix(x + suffix, suffix) == x
    ensures EndsWith(s, suffix) ==> TrimSuffix(s, suffix) + suffix == s
    ensures !EndsWith(s, suffix) ==> TrimSuffix(s, suffix) == s
  {
    assert (x + suffix)[|x + suffix| - |suffix|..] == suffix;
  }

  /** The last element of a path is unique. */
  lemma FinalElementUnique(a: string, b: string, path: string)
    requires FinalElement(a, path) && FinalElement(b, path)
    requires a != [] && b != []
    ensures a == b
  {
  }

  /** The base of "<prefix>/<elem>" is `elem` whenever `elem` is a non-empty
      separator-free name. */
  lemma BaseOfElement(prefix: string, elem: string)
    requires elem != [] && Separator !in elem
    ensures Base(prefix + [Separator] + elem) == elem
  {
    var path := prefix + [Separator] + elem;
    BaseShape(path);
    assert path[|path| - 1] == elem[|elem| - 1];
    assert StripTrailingSeparators(path) == path;
    assert path[|path| - |elem|..] == elem;
    assert FinalElement(elem, path);
    FinalElementUnique(Base(path), elem, path);
  }

  /** A trailing separator does not change the base of a non-empty path. */
  lemma BaseIgnoresTrailingSeparator(path: string)
    requires path != []
    ensures Base(path + [Separator]) == Base(path)
  {
    assert (path + [Separator])[..|path|] == path;
  }

  /** The base of "<prefix>/<name>.csv" is "<name>.csv". */
  lemma BaseOfCsvElement(prefix: string, name: string)
    requires Separator !in name
    ensures Base(prefix + [Separator] + name + CsvSuffix) == name + CsvSuffix
  {
    var elem := name + CsvSuffix;
    assert Separator !in elem by {
      assert Separator !in CsvSuffix;
    }
    assert prefix + [Separator] + name + CsvSuffix == prefix + [Separator] + elem;
    BaseOfElement(prefix, elem);
  }

  /** A URL ending in "/<name>.csv" is saved as "<dir>/<name>-<today>.csv";
      with name "x.csv" this shows that only one ".csv" is removed. */
  lemma OutputPathOfCsvUrl(dir: string, prefix: string, name: string, today: string)
    requires Separator !in name
    ensures OutputPath(dir, prefix + [Separator] + name + CsvSuffix, today)
         == dir + [Separator] + name + "-" + today + CsvSuffix
  {
    BaseOfCsvElement(prefix, name);
    TrimSuffixRoundTrip(name, name, CsvSuffix);
    JoinedFileNameParts(dir, name, today);
  }

  /** A URL whose last element does not end in ".csv" keeps that element whole. */
  lemma OutputPathOfOtherUrl(dir: string, prefix: string, elem: string, today: string)
    requires elem != [] && Separator !in elem && !EndsWith(elem, CsvSuffix)
    ensures OutputPath(dir, prefix + [Separator] + elem, today)
         == dir + [Separator] + elem + "-" + today + CsvSuffix
  {
    BaseOfElement(prefix, elem);
  }

  /** One file per URL per day: two different dates never name the same
      file. */
  lemma {:induction false} OutputPathPerDay(dir: string, url: string, day1: string, day2: string)
    requires day1 != day2
    ensures OutputPath(dir, url, day1) != OutputPath(dir, url, day2)
  {
    var stem := TrimSuffix(Base(url), CsvSuffix);
    var p1 := OutputPath(dir, url, day1);
    var p2 := OutputPath(dir, url, day2);
    var n := |dir| + 1 + |stem| + 1;
    assert p1 == dir + [Separator] + stem + "-" + day1 + CsvSuffix;
    assert p2 == dir + [Separator] + stem + "-" + day2 + CsvSuffix;
    if |day1| == |day2| {
      assert p1[n..n + |day1|] == day1;
      assert p2[n..n + |day2|] == day2;
    } else {
      assert |p1| != |p2|;
    }
  }
}
