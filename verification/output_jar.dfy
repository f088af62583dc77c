/** The name of the archive the patcher writes: the absolute path of the
    input with `".jar"` replaced by `"_no_cape.jar"`, using Java's
    `String.replace`, which rewrites every occurrence, not just the
    extension. */
module OutputJar {
  import opened JavaStrings

  const JarExtension: string := ".jar"
  const NoCapeJarExtension: string := "_no_cape.jar"

  /** `path.getAbsolutePath().replace(".jar", "_no_cape.jar")`, given the
      absolute path. */
  function OutputPath(absolutePath: string): (r: string)
    ensures r == Join(Split(absolutePath, JarExtension), NoCapeJarExtension)
    ensures |r| == |absolutePath| + 8 * Occurrences(absolutePath, JarExtension)
    ensures r == absolutePath <==> !Contains(absolutePath, JarExtension)
  {
    ReplaceLength(absolutePath, JarExtension, NoCapeJarExtension);
    ReplaceWithoutOccurrence(absolutePath, JarExtension, NoCapeJarExtension);
    Replace(absolutePath, JarExtension, NoCapeJarExtension)
  }

  /** A path that ends in `.jar` keeps that occurrence as the last one
      replaced, so the output ends in `_no_cape.jar` and is never the input
      itself; when the stem holds no other `.jar`, the output is the stem
      followed by `_no_cape.jar`. */
  lemma {:induction false} OutputPathOfJarFile(stem: string)
    ensures OutputPath(stem + JarExtension) == OutputPath(stem) + NoCapeJarExtension
    ensures OutputPath(stem + JarExtension) != stem + JarExtension
    ensures !Contains(stem, JarExtension) ==> OutputPath(stem + JarExtension) == stem + NoCapeJarExtension
  {
    TrailingJarReplaced(stem);
    EndsInJar(stem);
    if !Contains(stem, JarExtension) {
      ReplaceWithoutOccurrence(stem, JarExtension, NoCapeJarExtension);
    }
  }

  lemma TrailingJarReplaced(stem: string)
    ensures OutputPath(stem + JarExtension) == OutputPath(stem) + NoCapeJarExtension
  {
    JarExtensionStartsOnce();
    ReplaceTrailingTarget(stem, JarExtension, NoCapeJarExtension);
  }

  lemma EndsInJar(stem: string)
    ensures Contains(stem + JarExtension, JarExtension)
  {
    var path := stem + JarExtension;
    assert path[|stem|..|stem| + |JarExtension|] == JarExtension;
    assert OccursAt(path, JarExtension, |stem|);
  }

  /** The `.` that starts `.jar` does not recur in it. */
  lemma JarExtensionStartsOnce()
    ensures forall i :: 1 <= i < |JarExtension| ==> JarExtension[i] != JarExtension[0]
  {
  }
}
