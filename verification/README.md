# OptifinePatcher core, modelled in Dafny

OptifinePatcher is a command-line tool that removes OptiFine's cape-name check. It unpacks
the OptiFine jar into a temporary directory called `OF_patcher_temp_dir`. It then loads
`net/optifine/player/CapeUtils.class` with ASM, rewrites the user-name pattern constant
`"[a-zA-Z0-9_]+"` to `""`, and packs the directory back into a jar at the input's
absolute path with every `.jar` replaced by `_no_cape.jar`. When the input's name ends in
`.jar` the output name ends in `_no_cape.jar`. When the path contains no `.jar` at all (for
example `OptiFine.JAR`), the output path is the input path itself, and lines 69-70 delete
the input before writing. Class-file parsing and writing (ASM) and archive reading and writing
(`java.util.jar`) are library code. This project models the three pieces of logic the tool
itself contains, as pure functions:

- `CapePatch` (`cape_patch.dfy`): the LDC rewrite. It works over ASM's tree view, where a
  class node holds method nodes, a method node holds an instruction list, and an
  `LdcInsnNode` holds a constant. The constant is one of Integer, Float, Long, Double,
  String, `Type`, `Handle` or `ConstantDynamic`. The rewrite is given twice: as the
  function `PatchClass`, and as the method `PatchCapeUtils`, which has the source's two
  nested loops. The relation `RewritesClass` states what the rewrite must do. Both versions
  satisfy it, and it has exactly one solution.
- `JarEntryName` (`jar_entry_name.dfy`): the entry name `add` gives each file. It is the
  path after the first `OF_patcher_temp_dir` plus one separator character, with `\`
  mapped to `/`. `addFiles` uses the same suffix without the mapping. A start past the end
  of the path raises `StringIndexOutOfBoundsException`; the model returns it as a
  `Thrown` result.
- `OutputJar` (`output_jar.dfy`): the output path, which is the absolute input path with
  `.jar` replaced by `_no_cape.jar`.
- `JavaStrings` (`java_strings.dfy`): the `java.lang.String` operations these rely on.
  `indexOf` is specified as the leftmost occurrence, or -1 when there is none.
  `replace(CharSequence, CharSequence)` is modelled by its documented meaning, as a scan: find the
  leftmost occurrence, copy the text before it, emit the replacement, and continue after
  the occurrence. `Split` and `Join` give an independent description of the same result.
- `JavaExceptions` (`java_exceptions.dfy`): the result type that carries a thrown exception.

Three facts about the code shape the model:

- The code rewrites every matching LDC in every method of the class, not in one chosen
  method.
- It reports neither how many LDCs it rewrote nor that none matched.
- It sets the LDC node's constant and lets ASM's writer rebuild the constant pool; it does
  not edit a constant-pool entry in place.

## Model

| member | source | states |
|---|---|---|
| `CapePatch.PatchInsn` | src/main/java/dev/bodner/jack/Main.java:49-53 | One instruction: an LDC whose constant equals the String `"[a-zA-Z0-9_]+"` becomes an LDC of `""`. Every other instruction is returned unchanged. This covers non-LDC opcodes, LDCs of other strings, and non-String constants such as a `Type` with the same text. The opcode is always kept. |
| `CapePatch.PatchClass` | src/main/java/dev/bodner/jack/Main.java:47-56 | The rewritten class satisfies `RewritesClass`. It has the same methods in the same order, and each method has the same number of instructions in the same order. Every instruction is rewritten in place as `PatchInsn` describes. Fields, names, access flags and every non-instruction part stay the same. |
| `CapePatch.PatchCapeUtils` | src/main/java/dev/bodner/jack/Main.java:47-56 | The source's nested loop over methods and instructions, updating constants in place, establishes `RewritesClass` for the whole class. |
| `CapePatch.RewritesClassDeterminesResult` | src/main/java/dev/bodner/jack/Main.java:47-56 | Any class related to the input by `RewritesClass` equals `PatchClass` of the input. So the loop and the function compute the same class. |
| `CapePatch.PatchLeavesNoTarget` | src/main/java/dev/bodner/jack/Main.java:51-52 | After the rewrite, no instruction in any method is an LDC of the pattern string, because `""` differs from it. |
| `CapePatch.PatchChangesIffTarget` | src/main/java/dev/bodner/jack/Main.java:47-56 | The rewrite changes the class if and only if some method contains an LDC of the pattern string. |
| `CapePatch.PatchIdempotent` | src/main/java/dev/bodner/jack/Main.java:47-56 | Applying the rewrite a second time changes nothing. |
| `JavaStrings.IndexOf` | src/main/java/dev/bodner/jack/Main.java:155 | `indexOf` returns the leftmost offset where the pattern occurs, and no earlier offset holds an occurrence. It returns -1 exactly when the pattern occurs nowhere. |
| `JavaStrings.IndexOfFrom` | src/main/java/dev/bodner/jack/Main.java:155 | The search from an offset finds the leftmost occurrence at or after that offset, or returns -1 when there is none from there on. An offset past the end is clamped to the length, so an empty pattern is found at the end (`"abc".indexOf("", 5)` is 3). |
| `JavaStrings.IndexOfFromStart` | src/main/java/dev/bodner/jack/Main.java:155 | The one-argument `indexOf` used here gives the same result as the search from offset 0. |
| `JavaStrings.SplitJoin` | src/main/java/dev/bodner/jack/Main.java:68 | Joining the left-to-right pieces of a string between occurrences of a separator, with that separator, gives back the string. |
| `JavaStrings.SplitPartsFree` | src/main/java/dev/bodner/jack/Main.java:68 | None of those pieces contains the separator, so every occurrence was cut out. |
| `JavaStrings.Replace` | src/main/java/dev/bodner/jack/Main.java:68 | `String.replace` with a non-empty target gives the `Split` pieces joined with the replacement: the text between the left-to-right, non-overlapping occurrences is kept unchanged, and each occurrence is replaced. |
| `JavaStrings.ReplaceLength` | src/main/java/dev/bodner/jack/Main.java:68 | `replace` changes the length by the replacement's length minus the target's length, once for each occurrence. |
| `JavaStrings.ReplaceWithoutOccurrence` | src/main/java/dev/bodner/jack/Main.java:68 | The occurrence count is zero exactly when the target does not occur, and then `replace` returns its input. |
| `JavaStrings.ReplaceTrailingTarget` | src/main/java/dev/bodner/jack/Main.java:68 | Take a target whose first character does not recur in it. Replacing it in `q + target` gives the result for `q`, followed by the replacement. |
| `JavaStrings.ReplaceSingleChar` | src/main/java/dev/bodner/jack/Main.java:159 | Replacing a one-character string by a one-character string maps that character everywhere. Every other character stays in its position. |
| `JarEntryName.EntrySuffix` | src/main/java/dev/bodner/jack/Main.java:154-157 | Let `m` be the first occurrence of `OF_patcher_temp_dir`. The suffix is the path from `m + 20`, and its length is the path's length minus `m + 20`. It is a thrown `StringIndexOutOfBoundsException` when `m + 20` exceeds the path's length. When the name is absent, the start is `-1 + 20 = 19`. |
| `JarEntryName.EntryName` | src/main/java/dev/bodner/jack/Main.java:154-159 | The entry name succeeds or throws exactly as the suffix does. It has the suffix's length, contains no `\`, and is the suffix with each `\` turned into `/` and every other character kept in place. |
| `JarEntryName.AddFilesNameAgreement` | src/main/java/dev/bodner/jack/Main.java:109-112 | `addFiles` names an entry by the bare suffix. That name equals `add`'s name exactly when the suffix contains no `\`. |
| `JarEntryName.TempDirFoundAfterUserDir` | src/main/java/dev/bodner/jack/Main.java:32 | Consider a path `dir + sep + OF_patcher_temp_dir + sep + rest`, where `dir` does not contain the directory name. The first occurrence of the name is right after `dir`. |
| `JarEntryName.EntryNameOfUnpackedFile` | src/main/java/dev/bodner/jack/Main.java:154-159 | A file whose path joins its components with the platform separator, below the temporary directory in the working directory, gets those components joined with `/` as its entry name. This holds on both Unix and Windows. |
| `OutputJar.OutputPath` | src/main/java/dev/bodner/jack/Main.java:68 | The output path is the input's pieces between `.jar` occurrences, joined with `_no_cape.jar`. It is 8 characters longer per occurrence. It equals the input exactly when the input contains no `.jar`; that equal path is the one lines 69-70 delete. |
| `OutputJar.OutputPathOfJarFile` | src/main/java/dev/bodner/jack/Main.java:68-70 | For an input ending in `.jar`, the output ends in `_no_cape.jar` and is never the input itself. When the stem contains no other `.jar`, the output is the stem followed by `_no_cape.jar`. |

## Left out

- Argument checking and console messages in `main` (lines 20-29, 35-37, 58, 66, 75-78):
  these are control flow around I/O.
- ASM's `ClassReader`/`ClassWriter` (lines 43-45, 60-63), including `COMPUTE_MAXS`:
  library code. The model starts from the parsed tree and stops at the rewritten tree.
  Only the parts the loop touches are represented. A field's value and the class header
  are kept so that the frame condition can be stated.
- `unpackJar` (lines 82-101): filesystem and `JarFile` I/O. Its copy loop relies on the
  stream behaviour of `available()`.
- The directory recursion, buffered copying and `setTime` in `add` (lines 137-151, 160-177):
  filesystem traversal and `JarOutputStream` I/O. The model keeps only the entry-name
  computation.
- `addFiles` beyond its entry-name computation (lines 103-130). `main` never calls it, and
  it reads from the directory `input` instead of the file.
- `deleteDirectory` (lines 180-188), creating the temporary directory (lines 32-34), and
  deleting an existing output file (lines 69-70): filesystem side effects. The model states
  only when the path deleted at line 70 is the input path.
- `getAbsolutePath()` and `System.getProperty("user.dir")`: these depend on the process
  environment. They are parameters of `OutputPath` and `EntryNameOfUnpackedFile`.
- `JarEntryName.EntryNameOfUnpackedFile`: requires that the working directory not contain
  `OF_patcher_temp_dir` and that no path component contain `\`. If either is broken,
  `EntrySuffix` still gives the code's result, but the result is not the file's relative
  name.
- `JarEntryName.EntrySuffix`: offsets and lengths count Unicode scalar values, the
  elements of a Dafny `string`, where Java's `indexOf`, `length` and `substring` count
  UTF-16 code units. A character outside the Basic Multilingual Plane is one element here
  and two in Java, so on a path holding such characters before the cut point the start
  offset and the throw test differ (a marker-free path of ten U+1F600 throws here, while
  Java returns the trailing low surrogate). Lone surrogates cannot be represented at all.
- `JavaStrings.IndexOf`: the offset it returns counts Unicode scalar values, not UTF-16
  code units, so after a character outside the Basic Multilingual Plane it is smaller
  than Java's. Matching a pattern that is or holds half of a surrogate pair cannot be
  expressed.
- `JavaStrings.IndexOfFrom`: both the start offset and the result count Unicode scalar
  values, as in `JavaStrings.IndexOf`.
- `JavaStrings.Replace`: the text is scanned as Unicode scalar values, not UTF-16 code
  units. For the non-empty targets the patcher uses this gives the same text as Java. For
  an empty target Java inserts the replacement between the two halves of a surrogate pair,
  which the model cannot express.
- `CapePatch.PatchInsn`: Float and Double constants are held as bit patterns. This is
  enough to distinguish them from Strings, and nothing else about them is used.
