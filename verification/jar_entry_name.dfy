/** How the patcher names the entries of the archive it writes. The archive
    is unpacked into a temporary directory called `OF_patcher_temp_dir`;
    when a file is added back, its entry name is the part of its path after
    that directory name and the separator that follows it, with Windows
    separators turned into the `/` that archive entry names use. */
module JarEntryName {
  import opened JavaExceptions
  import opened JavaStrings

  /** The name of the temporary directory the archive is unpacked into. */
  const TempDirName: string := "OF_patcher_temp_dir"

  /** Where the entry name starts when the directory name is first found at
      `index`: after the 19 characters of the name and one separator. The
      sum is taken even when `index` is -1 (name absent). */
  function SuffixStart(index: int): int {
    index + |TempDirName| + 1
  }

  /** `path.substring(path.indexOf(TempDirName) + TempDirName.length() + 1)`,
      the computation shared by `add` and `addFiles`. `substring` throws when
      the start lies past the end of the path; it can never lie before the
      start, since `indexOf` returns at least -1. */
  function EntrySuffix(path: string): (r: Result<string>)
    ensures forall m :: IsFirstOccurrence(path, TempDirName, m) ==>
      && (r.Ok? <==> SuffixStart(m) <= |path|)
      && (r.Ok? ==> r.value == path[SuffixStart(m)..] && |r.value| == |path| - SuffixStart(m))
    ensures !Contains(path, TempDirName) ==>
      && (r.Ok? <==> SuffixStart(-1) <= |path|)
      && (r.Ok? ==> r.value == path[SuffixStart(-1)..])
    ensures r.Thrown? ==> r.exception.StringIndexOutOfBounds? && r.exception.begin > r.exception.length == |path|
  {
    var begin := SuffixStart(IndexOf(path, TempDirName));
    if begin > |path| then Thrown(StringIndexOutOfBounds(begin, |path|))
    else Ok(path[begin..])
  }

  /** The entry name `add` gives a file: the suffix with every `\` replaced
      by `/`. */
  function EntryName(path: string): (r: Result<string>)
    ensures r.Ok? <==> EntrySuffix(path).Ok?
    ensures r.Thrown? ==> r == EntrySuffix(path)
    ensures r.Ok? ==> |r.value| == |EntrySuffix(path).value|
    ensures r.Ok? ==> '\\' !in r.value
    ensures r.Ok? ==> forall i :: 0 <= i < |r.value| ==>
      var c := EntrySuffix(path).value[i]; r.value[i] == (if c == '\\' then '/' else c)
  {
    match EntrySuffix(path)
    case Ok(suffix) =>
      ReplaceSingleChar(suffix, '\\', '/');
      Ok(Replace(suffix, "\\", "/"))
    case Thrown(e) => Thrown(e)
  }

  /** `addFiles` names entries by the suffix alone, without the slash
      mapping; the two names agree exactly when the suffix holds no `\`. */
  lemma AddFilesNameAgreement(path: string)
    requires EntrySuffix(path).Ok?
    ensures EntryName(path) == EntrySuffix(path) <==> '\\' !in EntrySuffix(path).value
  {
    var suffix := EntrySuffix(path).value;
    if '\\' !in suffix {
      ReplaceSingleChar(suffix, '\\', '/');
      MapCharAbsent(suffix, '\\', '/');
    }
  }

  predicate IsSeparator(c: char) {
    c == '/' || c == '\\'
  }

  lemma TempDirNameHasNoSeparator()
    ensures forall i :: 0 <= i < |TempDirName| ==> !IsSeparator(TempDirName[i])
  {
  }

  /** In `dir + sep + TempDirName + sep + rest`, the first occurrence of the
      directory name is the one after `dir`, provided `dir` does not hold
      it: an earlier occurrence would lie inside `dir` or would have to
      cover the separator, which the name does not contain. */
  lemma TempDirFoundAfterUserDir(dir: string, sep: char, rest: string)
    requires IsSeparator(sep)
    requires !Contains(dir, TempDirName)
    ensures IsFirstOccurrence(dir + [sep] + TempDirName + [sep] + rest, TempDirName, |dir| + 1)
  {
    var tail := [sep] + TempDirName + [sep] + rest;
    var path := dir + tail;
    assert path == dir + [sep] + TempDirName + [sep] + rest;
    assert path[|dir| + 1..|dir| + 1 + |TempDirName|] == TempDirName;
    TempDirNameHasNoSeparator();
    forall k | 0 <= k < |dir| + 1
      ensures !OccursAt(path, TempDirName, k)
    {
      if k + |TempDirName| <= |dir| {
        OccursInExtension(dir, tail, TempDirName, k);
      } else if k + |TempDirName| <= |path| {
        assert path[|dir|] == sep;
        assert path[k..k + |TempDirName|][|dir| - k] == path[|dir|];
      }
    }
  }

  lemma {:induction false} MapSeparatorsInJoin(parts: seq<string>, sep: char)
    requires IsSeparator(sep)
    requires forall i :: 0 <= i < |parts| ==> '\\' !in parts[i]
    ensures MapChar(Join(parts, [sep]), '\\', '/') == Join(parts, "/")
  {
    if |parts| == 1 {
      MapCharAbsent(parts[0], '\\', '/');
    } else if |parts| > 1 {
      MapSeparatorsInJoin(parts[1..], sep);
      MapCharAbsent(parts[0], '\\', '/');
      MapCharConcat(parts[0] + [sep], Join(parts[1..], [sep]), '\\', '/');
      MapCharConcat(parts[0], [sep], '\\', '/');
    }
  }

  /** The name a file unpacked under the temporary directory gets: the
      temporary directory is created in the working directory `dir`
      (Main.java:32) and a nested file's path joins its path components with
      the platform separator; the entry name joins the same components with
      `/`, on either platform. */
  lemma EntryNameOfUnpackedFile(dir: string, sep: char, components: seq<string>)
    requires IsSeparator(sep)
    requires !Contains(dir, TempDirName)
    requires forall i :: 0 <= i < |components| ==> '\\' !in components[i]
    ensures EntryName(dir + [sep] + TempDirName + [sep] + Join(components, [sep])) == Ok(Join(components, "/"))
  {
    var rest := Join(components, [sep]);
    var path := dir + [sep] + TempDirName + [sep] + rest;
    TempDirFoundAfterUserDir(dir, sep, rest);
    assert path[SuffixStart(|dir| + 1)..] == rest;
    assert EntrySuffix(path) == Ok(rest);
    ReplaceSingleChar(rest, '\\', '/');
    MapSeparatorsInJoin(components, sep);
  }
}
