# toml-converter-plugin in Dafny

This project models the core of the Gradle plugin `toml-converter-plugin`. The plugin collects the external dependencies of a build and does two things with them:

- It writes a Gradle version catalog (`libs.versions.toml`) with a `[versions]` table and a `[libraries]` table.
- It rewrites each dependency declaration of the build script (`'group:name:version[:classifier]'`) into a catalog accessor (`libs.some.artifact`).

The model follows the source class by class, one module each:

| module | file | source |
|---|---|---|
| `Dependencies` | dependency.dfy | `Dependency`: the four-field value, its null checks, equality and hash |
| `Coordinates` | coordinates.dfy | `GVACoordinates`: a class whose classifier set `addClassifiers` grows in place; equality and hash ignore classifiers |
| `Entries` | entries.dfy | `GroupVersionEntry` and `LibraryEntry`: base ids, the version / `version.ref` / no-version choice, and the rendered TOML values with a parser that reads them back |
| `Identifiers` | identifiers.dfy | the key sanitising chain of `TomlTable.add`, the collision test and the four-digit hexadecimal suffix |
| `Tables` | tables.dfy | `TomlTable`: a class over a `map` of rows, with `add`, `addAll`, `write` and the entry iterator |
| `Replacers` | replacer.dfy | `BuildGradleReplacer`: a matcher for the one pattern shape the constructor compiles, the replacement text, and `replaceFirst` |
| `Rewriter` | rewriter.dfy | `BuildGradleRewriterTask.action`: every line through every replacer, in list order |
| `Writer` | toml_writer.dfy | `TomlWriterTask`: classifier grouping, shared-version inference, library encoding, replacer emission and table output |
| `Scenarios` | scenarios.dfy | the declarations of the plugin's functional test, rewritten by the replacers the catalog gives them |

`Hashing` (hashing.dfy) models Java's 32-bit `String.hashCode` and `Objects.hash`. `Text` (text.dfy) models string order, which is `String.compareTo`, prefixes and quoted-string splitting. `Wrappers` (wrappers.dfy) holds `Option` and `Result`.

The task classes are imperative, as in the source:

- `TomlTable.Add` stores one row in the `rows` field.
- `TomlWriterTask.WriteToml` fills both tables and builds `groupToTomlId` in a loop.
- It emits the replacers in nested loops and returns the written lines.
- The rewriter's `Action` is the nested loop over lines and replacers.

Each method is proved against a specification function:

- `AddSeq` for a batch of additions, `TableLines` for the written table, `ClassifierGroups` for the grouping and `SharedVersions` for the inference.
- `EncodeLibraries` for the encoding, and `RewrittenLines` / `ApplyAll` for the rewrite.
- The lemmas state what the source promises about each of these functions.

Random suffixes are a parameter `random: nat -> Suffix` (the i-th row added in a batch draws `random(i)`). Hash-set and hash-map iteration order is an arbitrary enumeration. The file writing is left to the caller: the tasks return lines.

## Model

| member | source | states |
|---|---|---|
| Dependencies.NewDependency | src/main/java/com/github/jeffalder/tomlconverter/data/Dependency.java:19-26 | fails on an absent group (checked first) and otherwise on an absent name; succeeds exactly when both are present, keeping all four fields, with version and classifier allowed to be absent |
| Dependencies.FromModule | src/main/java/com/github/jeffalder/tomlconverter/data/Dependency.java:28-31 | the classifier is the first artifact's classifier, none when there are no artifacts; version kept; fails exactly when group or name is absent |
| Dependencies.FromConstraint | src/main/java/com/github/jeffalder/tomlconverter/data/Dependency.java:33-35 | a dependency built from a constraint never has a classifier and keeps the version |
| Dependencies.HashCode | src/main/java/com/github/jeffalder/tomlconverter/data/Dependency.java:50-53 | the hash is a 32-bit signed value |
| Dependencies.EqualsMeansSameFields | src/main/java/com/github/jeffalder/tomlconverter/data/Dependency.java:37-53 | `equals` holds exactly when all four fields agree (absent equals only absent), and equal dependencies hash alike |
| Coordinates.KeyOf | src/main/java/com/github/jeffalder/tomlconverter/tasks/TomlWriterTask.java:94 | a dependency's coordinate is its group, name and version, classifier dropped |
| Coordinates.GVACoordinates.constructor | plugin/src/main/java/com/github/jeffalder/tomlconverter/data/GVACoordinates.java:18-27 | the three fields as given and an empty classifier set |
| Coordinates.GVACoordinates.AddClassifiers | plugin/src/main/java/com/github/jeffalder/tomlconverter/data/GVACoordinates.java:29-32 | the classifier set becomes its union with the collection, the same object is returned, and group, name and version stay |
| Coordinates.GVACoordinates.HashCode | plugin/src/main/java/com/github/jeffalder/tomlconverter/data/GVACoordinates.java:46-49 | the hash is a 32-bit signed value |
| Coordinates.EqualsIsKeyEquality | plugin/src/main/java/com/github/jeffalder/tomlconverter/data/GVACoordinates.java:34-49 | `equals` holds exactly when group, name and version agree (an absent version equals only an absent one), classifiers ignored; equal coordinates hash alike |
| Entries.NewLibraryEntry | plugin/src/main/java/com/github/jeffalder/tomlconverter/data/LibraryEntry.java:17-33 | no version key when the coordinate has no version; `version.ref` to the toml id exactly when both version and id are present; the literal version otherwise; the classifiers are copied |
| Entries.LibraryRenderRoundTrip | plugin/src/main/java/com/github/jeffalder/tomlconverter/data/LibraryEntry.java:56-63 | the rendered `{ module = "g:n"[, key = "v"] }` reads back as the same group, name and version specification when no value contains a quote and the group no colon |
| Entries.VersionPartRoundTrip | plugin/src/main/java/com/github/jeffalder/tomlconverter/data/LibraryEntry.java:59-62 | the optional `, version = "…"` / `, version.ref = "…"` part and the closing brace read back as the same specification, none when absent |
| Entries.CoordinatesSplit | plugin/src/main/java/com/github/jeffalder/tomlconverter/data/LibraryEntry.java:58 | the first colon of `group:name` separates a colon-free group from the name |
| Entries.VersionRenderRoundTrip | plugin/src/main/java/com/github/jeffalder/tomlconverter/data/GroupVersionEntry.java:26-29 | a shared version renders as its version in double quotes and reads back as exactly that version, whatever the group |
| Identifiers.CollapseInvalid | plugin/src/main/java/com/github/jeffalder/tomlconverter/TomlTable.java:44 | only letters, digits and single spaces remain; empty exactly when the input is |
| Identifiers.CollapseIsSqueezedBlanks | plugin/src/main/java/com/github/jeffalder/tomlconverter/TomlTable.java:44 | the collapse equals an independent reading of the expression: every character outside `[a-zA-Z0-9]` blanked, then only the first space of each run of spaces kept |
| Identifiers.CollapseKeepsAlnums | plugin/src/main/java/com/github/jeffalder/tomlconverter/TomlTable.java:44 | the letters and digits of the input all survive, in order |
| Identifiers.JoinDigits | plugin/src/main/java/com/github/jeffalder/tomlconverter/TomlTable.java:46 | after removing the space before each digit, no space precedes a digit, no double space appears and the text keeps its character class |
| Identifiers.JoinDigitsRemovesSpacesBeforeDigits | plugin/src/main/java/com/github/jeffalder/tomlconverter/TomlTable.java:46 | only spaces are removed, exactly as many as stand directly before a digit; every other character stays, in order |
| Identifiers.Sanitize | plugin/src/main/java/com/github/jeffalder/tomlconverter/TomlTable.java:43-47 | the candidate key has only ASCII letters, digits and dashes, no dash at either end, no two dashes in a row and no dash before a digit |
| Identifiers.SanitizeKeepsAlnums | plugin/src/main/java/com/github/jeffalder/tomlconverter/TomlTable.java:43-47 | the candidate key has exactly the letters and digits of the base id, in order |
| Identifiers.SanitizeKeepsWellFormed | plugin/src/main/java/com/github/jeffalder/tomlconverter/TomlTable.java:43-47 | a key already of that form is its own candidate |
| Identifiers.SanitizeIdempotent | plugin/src/main/java/com/github/jeffalder/tomlconverter/TomlTable.java:43-47 | sanitising twice is sanitising once |
| Identifiers.SanitizeDotted | plugin/src/main/java/com/github/jeffalder/tomlconverter/TomlTable.java:43-47 | `a.b` becomes `a-b` |
| Identifiers.Hex4 | plugin/src/main/java/com/github/jeffalder/tomlconverter/TomlTable.java:52 | `%04x` gives exactly four lower-case hexadecimal digits |
| Identifiers.Hex4RoundTrip | plugin/src/main/java/com/github/jeffalder/tomlconverter/TomlTable.java:52 | the four digits read back as the drawn value below 2^16 |
| Identifiers.AssignedKey | plugin/src/main/java/com/github/jeffalder/tomlconverter/TomlTable.java:49-53 | without a collision (the candidate is not a key and no key extends it by a dash) the key is the candidate, which is new; with one it is the candidate plus four hexadecimal digits encoding the draw; a well-formed candidate gives a well-formed key |
| Identifiers.SuffixNotRechecked | plugin/src/main/java/com/github/jeffalder/tomlconverter/TomlTable.java:49-55 | the suffixed key is not checked again: with the candidate and the candidate plus this suffix both present, the row gets a key already taken |
| Tables.SortDesc | plugin/src/main/java/com/github/jeffalder/tomlconverter/TomlTable.java:37-38 | the sorted batch is a permutation of the batch |
| Tables.SortDescDescending | plugin/src/main/java/com/github/jeffalder/tomlconverter/TomlTable.java:38 | the sorted batch descends by key in `compareTo` order |
| Tables.SortDescAgrees | plugin/src/main/java/com/github/jeffalder/tomlconverter/TomlTable.java:38 | the order depends only on the keys of the rows |
| Tables.AddSeqKeepsKeys | plugin/src/main/java/com/github/jeffalder/tomlconverter/TomlTable.java:55 | a key assigned early in a batch is still in the table after every later row |
| Tables.AddSeqKeyedByCandidate | plugin/src/main/java/com/github/jeffalder/tomlconverter/TomlTable.java:49-55 | adding a batch loses no key, and every row it stores sits under a key that begins with that row's candidate |
| Tables.TomlTable.constructor | plugin/src/main/java/com/github/jeffalder/tomlconverter/TomlTable.java:29-34 | the table has its name and no rows |
| Tables.TomlTable.Add | plugin/src/main/java/com/github/jeffalder/tomlconverter/TomlTable.java:42-58 | exactly one mapping is put, the row under its assigned key, every other mapping stays; the table itself is returned |
| Tables.TomlTable.AddAll | plugin/src/main/java/com/github/jeffalder/tomlconverter/TomlTable.java:36-40 | the rows are added one by one in descending base-id order |
| Tables.TomlTable.AddAllByKey | plugin/src/main/java/com/github/jeffalder/tomlconverter/TomlTable.java:36-40 | the rows are added one by one in descending candidate-key order |
| Tables.TomlTable.AddEach | plugin/src/main/java/com/github/jeffalder/tomlconverter/TomlTable.java:37-39 | the rows are added one by one in the order given, the i-th drawing `random(i)` |
| Tables.TomlTable.Write | plugin/src/main/java/com/github/jeffalder/tomlconverter/TomlTable.java:60-69 | the lines are the header, one `key = value` line per row by ascending key and a blank line, a function of the key-to-row mapping only and not of insertion order |
| Tables.TomlTable.Entries | plugin/src/main/java/com/github/jeffalder/tomlconverter/TomlTable.java:71-74 | the iterator yields every row once with its key, and nothing else |
| Tables.Least | plugin/src/main/java/com/github/jeffalder/tomlconverter/TomlTable.java:63 | the key written next is the least remaining one |
| Tables.SortedKeysAscending | plugin/src/main/java/com/github/jeffalder/tomlconverter/TomlTable.java:63 | the written keys strictly ascend |
| Tables.TableLinesReadBack | plugin/src/main/java/com/github/jeffalder/tomlconverter/TomlTable.java:60-69 | the written table has `[name]`, then exactly one line per row that reads back as its key and rendered value, then a blank line |
| Tables.ParseLineInverse | plugin/src/main/java/com/github/jeffalder/tomlconverter/TomlTable.java:64-65 | a `key = value` line reads back as its key and value |
| Tables.CandidateOrderSuffixesPrefixes | plugin/src/main/java/com/github/jeffalder/tomlconverter/TomlTable.java:22-25 | in descending candidate order, a candidate that another candidate of the batch extends by a dash is never stored bare |
| Tables.BaseIdOrderIsCandidateOrder | plugin/src/main/java/com/github/jeffalder/tomlconverter/TomlTable.java:38 | when every base id is already well formed, base-id order and candidate order coincide |
| Tables.SingleRowKeepsItsName | plugin/src/main/java/com/github/jeffalder/tomlconverter/TomlTable.java:49-55 | one row with a well-formed base id, added to an empty table, is stored under that id |
| Tables.JunitBomKeepsItsName | src/test/java/com/github/jeffalder/tomlconverter/PluginTest.java:121-123 | `junit-bom` is added first and keeps its name; `junit` collides with it and gets the suffix of the second draw |
| Tables.BaseIdOrderLeavesPrefixBare | plugin/src/main/java/com/github/jeffalder/tomlconverter/TomlTable.java:36-40 | base ids `a.b` and `a-b-c`: base-id order adds `a.b` first and stores its candidate `a-b` bare, although `a-b-c` extends it |
| Replacers.Replacement | src/main/java/com/github/jeffalder/tomlconverter/data/BuildGradleReplacer.java:33-39 | the replacement begins with `(libs.` + the key with dashes as dots + `)`; it is exactly that when there is no classifier, and otherwise is followed by ` { artifact { classifier = '<classifier>' } }` |
| Replacers.ReplacementKeepsClassifier | src/main/java/com/github/jeffalder/tomlconverter/data/BuildGradleReplacer.java:33-39 | two classifiers of one key never share a replacement text |
| Replacers.DashesToDots | src/main/java/com/github/jeffalder/tomlconverter/data/BuildGradleReplacer.java:33 | every dash becomes a dot and every other character stays |
| Replacers.AccessorPathRoundTrip | src/main/java/com/github/jeffalder/tomlconverter/data/BuildGradleReplacer.java:33 | a key without dots is recovered from its accessor path |
| Replacers.NewReplacerWith | src/main/java/com/github/jeffalder/tomlconverter/data/BuildGradleReplacer.java:14-40 | the pattern quotes the entry's group and name, wants a version exactly when the entry has one and the classifier exactly when one is given; the replacement is the accessor |
| Replacers.NewReplacer | src/main/java/com/github/jeffalder/tomlconverter/data/BuildGradleReplacer.java:14-40 | the replacer the catalog uses, with interpolations ending at their first closing brace |
| Replacers.Replace | src/main/java/com/github/jeffalder/tomlconverter/data/BuildGradleReplacer.java:42-44 | the line unchanged when nothing matches; otherwise the text before the first match, the replacement, and the text after the match |
| Replacers.FindLeftmost | src/main/java/com/github/jeffalder/tomlconverter/data/BuildGradleReplacer.java:43 | the match found starts where a match starts and at no earlier position; none is found only when no position starts one |
| Replacers.ReplaceDeclaration | src/main/java/com/github/jeffalder/tomlconverter/data/BuildGradleReplacer.java:23-44 | a declaration (optional space, optional parenthesis, quote, `group:name`, the version, the classifier, quote, optional parenthesis) after quote-free text becomes the replacement, with the text around it kept |
| Replacers.QuotelessLineUnchanged | src/main/java/com/github/jeffalder/tomlconverter/data/BuildGradleReplacer.java:25-29 | a line without quotes is never changed |
| Replacers.ColonlessLineUnchanged | src/main/java/com/github/jeffalder/tomlconverter/data/BuildGradleReplacer.java:26 | a line without a colon is never changed |
| Replacers.OtherClassifierUnchanged | src/main/java/com/github/jeffalder/tomlconverter/data/BuildGradleReplacer.java:17-29 | a replacer leaves alone a declaration of its coordinate with another classifier or none; `g:n:v:test` is not matched by the plain rule, and the reverse |
| Replacers.GreedyAgrees | src/main/java/com/github/jeffalder/tomlconverter/data/BuildGradleReplacer.java:19 | when no closing brace follows the interpolation, the greedy and the first-brace rule match the same version |
| Replacers.GreedySwallows | src/main/java/com/github/jeffalder/tomlconverter/data/BuildGradleReplacer.java:19 | as written, an interpolated version runs to the last brace that a quote follows, taking later declarations on the line with it |
| Replacers.GreedySwallowsExample | src/main/java/com/github/jeffalder/tomlconverter/data/BuildGradleReplacer.java:19 | the `g:a` replacer turns `f('g:a:${v}');f('g:b:${w}')` into `f(libs.a)` |
| Replacers.FirstBraceExample | src/main/java/com/github/jeffalder/tomlconverter/data/BuildGradleReplacer.java:19 | with the first-brace rule the same line becomes `f(libs.a);f('g:b:${w}')` |
| Rewriter.BuildGradleRewriterTask.SetBuildGradleReplacers | src/main/java/com/github/jeffalder/tomlconverter/tasks/BuildGradleRewriterTask.java:65-68 | the replacers are set and the task itself returned |
| Rewriter.BuildGradleRewriterTask.Action | src/main/java/com/github/jeffalder/tomlconverter/tasks/BuildGradleRewriterTask.java:54-61 | the output is each input line through all replacers in list order |
| Rewriter.RewrittenLineAt | src/main/java/com/github/jeffalder/tomlconverter/tasks/BuildGradleRewriterTask.java:54-61 | one output line per input line, in order, the i-th being the i-th input through every replacer, each taking the previous one's output |
| Rewriter.ApplyAllAppend | src/main/java/com/github/jeffalder/tomlconverter/tasks/BuildGradleRewriterTask.java:55-57 | applying two lists of replacers in turn is applying their concatenation |
| Rewriter.NoReplacersCopy | src/main/java/com/github/jeffalder/tomlconverter/tasks/BuildGradleRewriterTask.java:55-57 | with no replacers every line is copied unchanged |
| Rewriter.RewrittenAppend | src/main/java/com/github/jeffalder/tomlconverter/tasks/BuildGradleRewriterTask.java:54-56 | lines are rewritten independently: rewriting two parts of a script and joining them is rewriting the whole |
| Rewriter.QuotelessLineKept | src/main/java/com/github/jeffalder/tomlconverter/tasks/BuildGradleRewriterTask.java:55-57 | a line without quotes passes every replacer unchanged |
| Rewriter.ColonlessLineKept | src/main/java/com/github/jeffalder/tomlconverter/tasks/BuildGradleRewriterTask.java:55-57 | a line without a colon passes every replacer unchanged |
| Writer.GroupsAdd | src/main/java/com/github/jeffalder/tomlconverter/tasks/TomlWriterTask.java:94-96 | one more dependency adds its classifier under its coordinate, from an empty set if the coordinate is new, and changes no other coordinate |
| Writer.SameCoordinateMerges | src/main/java/com/github/jeffalder/tomlconverter/tasks/TomlWriterTask.java:91-101 | two dependencies with the same group, name and version make one coordinate holding both classifiers (`group1:name1:4.1.5` and its `test` variant) |
| Writer.CollectClassifiers | src/main/java/com/github/jeffalder/tomlconverter/tasks/TomlWriterTask.java:92-97 | the `computeIfAbsent` loop maps each coordinate of the dependencies to the union of their classifiers, the absent one included, and nothing else |
| Writer.NewCoordinates | src/main/java/com/github/jeffalder/tomlconverter/tasks/TomlWriterTask.java:99-101 | one new coordinate per key of the map, no two alike, each holding that key's classifiers |
| Writer.TomlWriterTask.BuildClassifierGroups | src/main/java/com/github/jeffalder/tomlconverter/tasks/TomlWriterTask.java:91-102 | every dependency's group/name/version appears as exactly one coordinate, none without a dependency, each with every classifier declared with it |
| Writer.Enumerate | src/main/java/com/github/jeffalder/tomlconverter/tasks/TomlWriterTask.java:99-101 | the iteration over a hash set: every element exactly once, in some order |
| Writer.GroupVersions | src/main/java/com/github/jeffalder/tomlconverter/tasks/TomlWriterTask.java:125-128 | a group is listed exactly when it has a versioned coordinate, with one version per such coordinate and exactly their versions |
| Writer.SharedVersionIff | src/main/java/com/github/jeffalder/tomlconverter/tasks/TomlWriterTask.java:124-135 | a group gets shared version `v` exactly when more than one of its coordinates has a version and `v` is the only version among them |
| Writer.OneVersionPerGroup | src/main/java/com/github/jeffalder/tomlconverter/tasks/TomlWriterTask.java:130-134 | a group gets at most one shared version |
| Writer.SharedVersionsOrderFree | src/main/java/com/github/jeffalder/tomlconverter/tasks/TomlWriterTask.java:124-135 | the shared versions do not depend on the order the coordinates are streamed in |
| Writer.UnversionedIgnored | src/main/java/com/github/jeffalder/tomlconverter/tasks/TomlWriterTask.java:126 | a coordinate without a version never changes the shared versions |
| Writer.VersionGroupShared | src/test/java/com/github/jeffalder/tomlconverter/PluginTest.java:115-116 | `version-group:some-artifact:1.2.3` and `version-group:other-artifact:1.2.3` share exactly `version-group = "1.2.3"` |
| Writer.EncodeLibraries | src/main/java/com/github/jeffalder/tomlconverter/tasks/TomlWriterTask.java:104-108 | one library entry per coordinate, referring to its group's versions-table key if there is one, otherwise literal or unversioned |
| Writer.VersionGroupReferenced | src/test/java/com/github/jeffalder/tomlconverter/PluginTest.java:115-118 | the shared version is stored under `version-group`, `groupToTomlId` maps the group to it, and `other-artifact` gets `version.ref = "version-group"` |
| Writer.GroupToTomlId | src/main/java/com/github/jeffalder/tomlconverter/tasks/TomlWriterTask.java:66-69 | every group of the versions table is mapped to a key whose row has that group |
| Writer.RowReplacers | src/main/java/com/github/jeffalder/tomlconverter/tasks/TomlWriterTask.java:75-77 | one replacer per classifier of the row, each built from the row's key, entry and classifier; every replacer returned is one of the row's, and every classifier's replacer is returned |
| Writer.EmitReplacers | src/main/java/com/github/jeffalder/tomlconverter/tasks/TomlWriterTask.java:74-78 | exactly one replacer per (library key, classifier) pair, the absent classifier included, and no pair twice; every replacer handed on belongs to some row and classifier of the library table, and every row and classifier's replacer is handed on |
| Writer.EmittedReplacers | src/main/java/com/github/jeffalder/tomlconverter/tasks/TomlWriterTask.java:74-78 | one replacer per covered (key, classifier) pair hands on exactly the replacers of the table's rows and classifiers, none missing and none extra |
| Writer.TomlWriterTask.constructor | src/main/java/com/github/jeffalder/tomlconverter/tasks/TomlWriterTask.java:57 | the task owns an empty `versions` table whose base id is the group, whose candidate is the sanitised group and whose rows render as quoted versions |
| Writer.TomlWriterTask.SetDependencies | src/main/java/com/github/jeffalder/tomlconverter/tasks/TomlWriterTask.java:137-140 | the dependencies are set and the task itself returned |
| Writer.TomlWriterTask.SetLibraryTable | src/main/java/com/github/jeffalder/tomlconverter/tasks/TomlWriterTask.java:151-154 | the library table is set and the task itself returned |
| Writer.TomlWriterTask.FillVersionTable | src/main/java/com/github/jeffalder/tomlconverter/tasks/TomlWriterTask.java:63-69 | the shared versions are added to the versions table by `addAll`, in descending group order; every new key begins with its row's sanitised group, and each group is mapped to the key it got there, suffixed or not |
| Writer.TomlWriterTask.FillLibraryTable | src/main/java/com/github/jeffalder/tomlconverter/tasks/TomlWriterTask.java:71-72 | the library entries are added to the libraries table by `addAll`, in descending artifact-name order; every new key begins with its row's sanitised artifact name |
| Writer.TomlWriterTask.WriteToml | src/main/java/com/github/jeffalder/tomlconverter/tasks/TomlWriterTask.java:60-89 | for tables keyed and rendered by their rows (as the plugin builds them): shared versions are in the versions table before the libraries are encoded against their keys; both tables are filled by `addAll` in descending base-id order, every new key beginning with its row's sanitised group or artifact name; one replacer per library key and classifier is emitted; the output is both tables written |
| Writer.LibraryLinesReadBack | plugin/src/main/java/com/github/jeffalder/tomlconverter/TomlTable.java:60-69 | a written libraries table reads back: each row line is a key and its entry's inline table, which reads back as the entry's group, name and version |
| Scenarios.OtherLineRewritten | src/test/java/com/github/jeffalder/tomlconverter/PluginTest.java:90 | `  testImplementation 'version-group:other-artifact:1.2.3'` becomes `  testImplementation(libs.other.artifact)` |
| Scenarios.PlainLineEitherOrder | src/test/java/com/github/jeffalder/tomlconverter/PluginTest.java:95 | `  testImplementation("group1:name1:4.1.5")` becomes `  testImplementation(libs.name1)` whichever of the two `name1` replacers runs first |
| Scenarios.TestLineEitherOrder | src/test/java/com/github/jeffalder/tomlconverter/PluginTest.java:96 | `  testRuntimeOnly("group1:name1:4.1.5:test")` becomes `  testRuntimeOnly(libs.name1) { artifact { classifier = 'test' } }` whichever replacer runs first |

## Left out

- Writing the catalog and the rewritten script, creating their directory and the `GradleException` when that fails (TomlWriterTask.java:80-88, BuildGradleRewriterTask.java:45-53) are file I/O. The tasks return their lines instead.
- Reading the build script and splitting it into lines is file I/O: `Action` takes the lines.
- The Gradle task wiring, configuration scanning, script generation and file preparation are plumbing around the core. The dependencies are a plain input set.
- `ThreadLocalRandom` is replaced by the parameter `random: nat -> Suffix`. The i-th row added in a batch draws `random(i)`, a value below 2^16.
- Hash-set and hash-map iteration order is not modelled. `Writer.Enumerate` gives the elements of a set in some order, and every contract holds for any order. Which replacer runs first on a line therefore stays open; the scenarios prove both orders.
- The consumer of `BuildGradleReplacer`s is modelled as the returned sequence `emitted`.
- Replacers.NewReplacerWith: the classifier is matched as literal text. The source splices it unquoted into the regular expression, so a classifier with regex metacharacters would behave differently.
- Replacers.Replace: the replacement is inserted literally. `replaceFirst` would interpret `$` and `\` in it. Keys hold only letters, digits and dashes, so this matters only for a classifier containing those characters.
- Replacers.NewReplacer: the model's replacers end an interpolated version at its first closing brace, not at the greedy `.*` of the source (see Findings). The as-written rule stays available as `NewReplacerWith(GreedyBraces, …)`.
- Writer.TomlWriterTask.WriteToml requires a library table. The source throws a `NullPointerException` when none was set. It also requires both tables to key and render by their rows' own `getBaseId` and `write`. Java's `TomlTable<T extends TomlTableRow>` guarantees this by its type, while the model's generic table holds these as function fields.
- Writer.TomlWriterTask.constructor starts with no dependencies, where the source field is `null` until `setDependencies` is called. Likewise `Rewriter.BuildGradleRewriterTask.constructor` starts with no replacers.
- Coordinates.GVACoordinates.constructor takes non-null strings, so its `requireNonNull` checks cannot fail. The null checks are modelled on `Dependencies.NewDependency`, from which every coordinate is built.
- Text.Below orders strings by Unicode scalar value. Java's `compareTo` compares UTF-16 code units, and the two differ only for characters outside the Basic Multilingual Plane. `Hashing.StringHash` likewise hashes scalar values rather than UTF-16 code units.
- No TOML string escaping is modelled, and neither does the source do any. The read-back lemmas therefore require values without double quotes.
- Entries.LibraryRenderRoundTrip and Tables.TableLinesReadBack read the rendering back with a small parser for the exact layout written. They are not a general TOML parser.
- The Gradle adapter types of `Dependency.from` are reduced to their field values: group, name and version as options, and the artifacts' classifiers as a sequence.

## Findings

| source | as written | input that shows it | evidently intended | confidence | as-written member | corrected member |
|---|---|---|---|---|---|---|
| src/main/java/com/github/jeffalder/tomlconverter/data/BuildGradleReplacer.java:19 | the interpolation alternative `\$\{.*\}` is greedy, so the match runs to the last `}` on the line that a quote follows | the replacer for `g:a` (key `a`) on the line `f('g:a:${v}');f('g:b:${w}')` gives `f(libs.a)`, deleting the `g:b` declaration | the interpolation ends at its own closing brace, giving `f(libs.a);f('g:b:${w}')` | medium; not executed | Replacers.GreedySwallowsExample | Replacers.FirstBraceExample |
| plugin/src/main/java/com/github/jeffalder/tomlconverter/TomlTable.java:38 | `addAll` orders rows by raw base id, but collisions are judged on the sanitised candidates | base ids `a.b` and `a-b-c`: `.` sorts above `-`, so `a.b` is added first and stored as bare `a-b`; `a-b-c` then does not collide and is also stored bare | every key that another key extends by a dash is suffixed, as the class comment (lines 22-25) promises | medium; not executed | Tables.BaseIdOrderLeavesPrefixBare | Tables.CandidateOrderSuffixesPrefixes |
