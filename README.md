# PackageUtil app-regex, modelled in Dafny

Doop's fact generators compute an *app regex* for an input archive. This is
the set of patterns that says which classes belong to the application being
analysed. `PackageUtil.getPackages` does the computation in three steps:

1. It picks an extractor by the lower-cased file-name suffix: `.jar`/`.zip`,
   `.apk`, `.aar` or `.class`.
2. The extractor turns every class name it finds into one `Regex`. A `Regex`
   is either an exact text or a wildcard prefix.
3. `reducePackages` merges the patterns. Exact texts are kept. Wildcard keys
   go into a trie. Every key marks as `deleted` the other keys that start
   with it. The keys left unmarked are rendered as `key + ".*"`.

The model has these modules:

- `Patterns`: the `Regex` value, with its `deleted` flag and its rendering.
- `JavaString` and `FilenameUtils`: the string operations the code calls.
  These are `lastIndexOf`, `indexOf`, `replace`, `substring` (with its
  exception), `toLowerCase`, `getPath`, `getName` and `getBaseName`.
- `PackageNames`: the three name-to-pattern derivations.
- `Extractors`: the JAR, APK, AAR and single-class extractors. The JAR, APK
  and AAR ones are loops over their input sequences, as in the code.
- `Reduction`: `reducePackages` as three loops over a reducer-local trie,
  which is a `map<string, Regex>`. Its `deleted` flags are flipped in place.
  The method is proved equal to a pure characterisation: every exact text,
  plus `k + ".*"` for each wildcard key `k` that no other key
  literal-prefixes.
- `ReductionProperties`: coverage, independence of the survivors,
  idempotence, absorption and the size bound, all proved about that
  characterisation.
- `PackageUtil`: the suffix dispatch, the whole computation as a function,
  and the method `GetPackages` proved equal to it.
- `Scenarios`: concrete and symbolic inputs and the app regex they give.

The foreign readers become fields of an `Archive` value. These readers are
the ZIP entry enumeration, the dex class enumeration, AAR-to-JAR expansion
and the class-name lookup for one class file. Patterns are compared by
value. Sets are traversed with `:|`, so every loop is proved for any
traversal order.

Where the code differs from the obvious reading, the model follows the code:

- **JAR wildcard keys keep the trailing separator.** `getPath` keeps the last
  `/`, so `com/foo/A.class` gives the key `"com.foo."` and the entry
  `"com.foo..*"`, not `"com.foo.*"`. As a side effect, sibling top-level
  packages from a JAR are never merged, even when one name is a spelling
  prefix of the other (`Scenarios.JarSiblingsKept`). Keys from APK and
  `.class` inputs have no trailing separator: `Lcom/foo/A;` gives the key
  `"com.foo"` (`Extractors.DescriptorInPackage`). Such keys are merged when
  one name is a spelling prefix of the other: `"com.foo"` absorbs
  `"com.foobar"` (`Scenarios.LiteralPrefixAbsorbsSibling`).
- **APK descriptors lose one character.** The code takes
  `substring(1, length()-2)`, which drops the `;` and also the last letter of
  the class name. `LTop;` gives the exact pattern `"To"`. The descriptor `L;`
  passes the shape check but makes `substring(1, 0)` throw
  `StringIndexOutOfBoundsException`, which aborts the whole computation. A
  class inside a package still gives the right package wildcard, because the
  lost letter belongs to the class name. `Extractors.IntendedDescriptorPattern`
  states the reading `substring(1, length()-1)`. Under that reading
  `L<name>;` gives exactly the pattern of `name`, and nothing throws.
- **The prefix test is on characters, not package segments.** `"com.foo"`
  absorbs `"com.foobar"`.

## Model

| member | source | states |
|---|---|---|
| `Patterns.Regex.Exact` | generators/fact-generator-common/src/main/java/org/clyze/doop/util/PackageUtil.java:163-165 | an exact regex keeps its text, is not a wildcard, renders as its text unchanged and is not deleted |
| `Patterns.Regex.Prefix` | generators/fact-generator-common/src/main/java/org/clyze/doop/util/PackageUtil.java:172-174 | a prefix regex keeps its text, renders as that text followed by ".*" and is not deleted |
| `Patterns.Regex.ToString` | generators/fact-generator-common/src/main/java/org/clyze/doop/util/PackageUtil.java:176-179 | the rendering starts with the text; a wildcard adds exactly ".*" after it and an exact regex adds nothing |
| `Patterns.ToStringInjective` | generators/fact-generator-common/src/main/java/org/clyze/doop/util/PackageUtil.java:176-179 | two regexes of the same kind with the same rendering have the same text |
| `JavaString.StartsWithChars` | generators/fact-generator-common/src/main/java/org/clyze/doop/util/PackageUtil.java:93 | `startsWith` holds exactly when the prefix is no longer than the string and agrees with it character by character; the same literal test decides membership of the trie's prefix map |
| `JavaString.EndsWithChars` | generators/fact-generator-common/src/main/java/org/clyze/doop/util/PackageUtil.java:33-39 | `endsWith` holds exactly when the suffix is no longer than the string and agrees with its last characters one by one |
| `JavaString.IndexOf` | generators/fact-generator-common/src/main/java/org/clyze/doop/util/PackageUtil.java:123 | -1 exactly when the character is absent; otherwise the position of its first occurrence |
| `JavaString.LastIndexOf` | generators/fact-generator-common/src/main/java/org/clyze/doop/util/PackageUtil.java:103-109 | -1 exactly when the character is absent; otherwise a position holding it with no occurrence after it |
| `JavaString.LastIndexOfSplit` | generators/fact-generator-common/src/main/java/org/clyze/doop/util/PackageUtil.java:103-109 | in `a + [c] + b` with no `c` in `b`, the last `c` is at index `|a|` |
| `JavaString.Replace` | generators/fact-generator-common/src/main/java/org/clyze/doop/util/PackageUtil.java:104-124 | same length; every old character becomes the new one, and every other character is kept |
| `JavaString.Substring` | generators/fact-generator-common/src/main/java/org/clyze/doop/util/PackageUtil.java:96 | succeeds exactly when 0 <= begin <= end <= length, and then splits the string around the result; otherwise it throws with the given bounds |
| `JavaString.ToLowerCase` | generators/fact-generator-common/src/main/java/org/clyze/doop/util/PackageUtil.java:32 | same length, lower-casing character by character |
| `JavaString.ToLowerCaseAppend` | generators/fact-generator-common/src/main/java/org/clyze/doop/util/PackageUtil.java:32 | lower-casing distributes over concatenation |
| `FilenameUtils.GetName` | generators/fact-generator-common/src/main/java/org/clyze/doop/util/PackageUtil.java:126 | a '/'-free suffix of the path, either the whole path or the part after a '/' |
| `FilenameUtils.GetPath` | generators/fact-generator-common/src/main/java/org/clyze/doop/util/PackageUtil.java:124 | empty or ending in '/'; followed by the name it gives back the path |
| `FilenameUtils.RemoveExtension` | generators/fact-generator-common/src/main/java/org/clyze/doop/util/PackageUtil.java:126 | a prefix of the name; unchanged exactly when there is no '.' or a '/' follows the last '.'; otherwise cut at a '.' with no '.' after it |
| `FilenameUtils.GetBaseName` | generators/fact-generator-common/src/main/java/org/clyze/doop/util/PackageUtil.java:126 | a '/'-free prefix of the name, equal to it exactly when the name has no '.', else cut at its last '.' |
| `PackageNames.PackageFromDots` | generators/fact-generator-common/src/main/java/org/clyze/doop/util/PackageUtil.java:108-111 | a wildcard exactly when the name has a '.'; an exact regex is the whole name; a wildcard's text followed by "." starts the name, and no '.' comes after it |
| `PackageNames.PackageFromSlashes` | generators/fact-generator-common/src/main/java/org/clyze/doop/util/PackageUtil.java:102-106 | a wildcard exactly when the name has a '/'; the text has no '/' and is no longer than the name; a wildcard is the dotted part before the last '/' |
| `PackageNames.PackageFromClassName` | generators/fact-generator-common/src/main/java/org/clyze/doop/util/PackageUtil.java:122-127 | a wildcard exactly when the first '/' is past index 0; the wildcard is the dotted directory through its last '/', so it ends in '.'; otherwise the exact base name |
| `PackageNames.ClassInDirectory` | generators/fact-generator-common/src/main/java/org/clyze/doop/util/PackageUtil.java:122-124 | `dir/file` with a non-empty `dir` gives the wildcard over `dir/` dotted |
| `PackageNames.ClassInDefaultPackage` | generators/fact-generator-common/src/main/java/org/clyze/doop/util/PackageUtil.java:125-126 | `Base.class` with no '/' or '.' in `Base` gives the exact pattern `Base` |
| `PackageNames.DottedClassPackage` | generators/fact-generator-common/src/main/java/org/clyze/doop/util/PackageUtil.java:108-111 | `pkg.Name` with a dot-free `Name` gives the wildcard over `pkg`, cut at the last '.' |
| `PackageNames.RootedIsExact` | generators/fact-generator-common/src/main/java/org/clyze/doop/util/PackageUtil.java:123-126 | a name starting with '/' fails the `> 0` test and gives the exact pattern of its base name |
| `PackageNames.ClassAtRoot` | generators/fact-generator-common/src/main/java/org/clyze/doop/util/PackageUtil.java:122-127 | `/Base.class` gives the same exact pattern `Base` as `Base.class` in the default package |
| `PackageNames.SlashesInPackage` | generators/fact-generator-common/src/main/java/org/clyze/doop/util/PackageUtil.java:102-106 | `dir/name` with no '/' in `name` gives the wildcard over `dir` dotted |
| `Extractors.PackagesForJar` | generators/fact-generator-common/src/main/java/org/clyze/doop/util/PackageUtil.java:129-139 | the loop yields one pattern per entry ending in ".class", derived from the entry name, and nothing for other entries |
| `Extractors.JarPatternsAppend` | generators/fact-generator-common/src/main/java/org/clyze/doop/util/PackageUtil.java:133-136 | one more entry adds its pattern when it is a class file and nothing otherwise |
| `Extractors.JarPatternsConcat` | generators/fact-generator-common/src/main/java/org/clyze/doop/util/PackageUtil.java:129-139 | the patterns of two runs of entries are the union of the patterns of each run |
| `Extractors.TwoClassEntries` | generators/fact-generator-common/src/main/java/org/clyze/doop/util/PackageUtil.java:133-136 | two class-file entries give exactly their two derived patterns |
| `Extractors.JarPatternShape` | generators/fact-generator-common/src/main/java/org/clyze/doop/util/PackageUtil.java:122-136 | every JAR pattern is fresh (not deleted) and '/'-free, and a JAR wildcard key ends in '.' |
| `Extractors.WellShaped` | generators/fact-generator-common/src/main/java/org/clyze/doop/util/PackageUtil.java:93 | a descriptor passes the check exactly when it has at least two characters, starts with 'L' and ends with ';' |
| `Extractors.DescriptorPattern` | generators/fact-generator-common/src/main/java/org/clyze/doop/util/PackageUtil.java:92-96 | a descriptor failing the L...; check contributes nothing; it throws exactly for "L;", with bounds (1, 0, 2); otherwise it gives the slash-derived pattern of the text between index 1 and length-2 |
| `Extractors.FlattenMember` | generators/fact-generator-common/src/main/java/org/clyze/doop/util/PackageUtil.java:88-91 | a descriptor is enumerated exactly when some dex unit holds it |
| `Extractors.DescriptorsFailIff` | generators/fact-generator-common/src/main/java/org/clyze/doop/util/PackageUtil.java:85-100 | the APK walk throws exactly when some descriptor is "L;", and then with the bounds (1, 0, 2) |
| `Extractors.DescriptorsContents` | generators/fact-generator-common/src/main/java/org/clyze/doop/util/PackageUtil.java:85-100 | on success, a pattern is in the APK result exactly when some accepted descriptor of length at least 3 produces it |
| `Extractors.DescriptorsStep` | generators/fact-generator-common/src/main/java/org/clyze/doop/util/PackageUtil.java:93-96 | one more descriptor that does not throw adds its pattern, or nothing when it is skipped |
| `Extractors.FlattenStep` | generators/fact-generator-common/src/main/java/org/clyze/doop/util/PackageUtil.java:88-91 | the next dex unit's descriptors follow those already walked |
| `Extractors.PackagesForApk` | generators/fact-generator-common/src/main/java/org/clyze/doop/util/PackageUtil.java:85-100 | the nested loops over dex units and their classes return the APK result, including the exception raised by the first "L;" |
| `Extractors.PackagesForDexUnit` | generators/fact-generator-common/src/main/java/org/clyze/doop/util/PackageUtil.java:91-97 | the inner loop over one dex unit's classes continues the APK result of the descriptors before it, and throws exactly as the whole walk would |
| `Extractors.UnitStep` | generators/fact-generator-common/src/main/java/org/clyze/doop/util/PackageUtil.java:93-96 | one more class of a dex unit adds the pattern its descriptor gives, or nothing when it is skipped |
| `Extractors.ShortDescriptor` | generators/fact-generator-common/src/main/java/org/clyze/doop/util/PackageUtil.java:93-96 | a descriptor that passes the L...; check but is shorter than 3 characters is "L;" |
| `Extractors.UnitThrows` | generators/fact-generator-common/src/main/java/org/clyze/doop/util/PackageUtil.java:96 | an "L;" in a dex unit makes the walk throw with bounds (1, 0, 2), whatever was walked before |
| `Extractors.ApkThrows` | generators/fact-generator-common/src/main/java/org/clyze/doop/util/PackageUtil.java:96 | any dex unit holding "L;" makes the whole APK extraction throw |
| `Extractors.IntendedDescriptorPattern` | generators/fact-generator-common/src/main/java/org/clyze/doop/util/PackageUtil.java:96 | the reading `substring(1, length()-1)` gives a pattern exactly for the descriptors passing the check, and never throws |
| `Extractors.IntendedDescriptorRoundTrip` | generators/fact-generator-common/src/main/java/org/clyze/doop/util/PackageUtil.java:96 | under that reading, `L<name>;` gives exactly the pattern of `name` |
| `Extractors.DefaultPackageDescriptorTruncated` | generators/fact-generator-common/src/main/java/org/clyze/doop/util/PackageUtil.java:96 | as written, "LTop;" gives the exact pattern "To"; under the intended reading it gives "Top" |
| `Extractors.DescriptorDropsLastChar` | generators/fact-generator-common/src/main/java/org/clyze/doop/util/PackageUtil.java:96 | as written, `L<body>;` with a non-empty body gives the pattern of the body without its last character |
| `Extractors.DescriptorInPackage` | generators/fact-generator-common/src/main/java/org/clyze/doop/util/PackageUtil.java:93-96 | `L<pkg>/<Name>;` with a non-empty `Name` gives the wildcard over `pkg` dotted |
| `Extractors.AarMember` | generators/fact-generator-common/src/main/java/org/clyze/doop/util/PackageUtil.java:113-120 | a pattern is in the AAR result exactly when some embedded JAR yields it |
| `Extractors.AarStep` | generators/fact-generator-common/src/main/java/org/clyze/doop/util/PackageUtil.java:116-117 | one more embedded JAR adds exactly its own JAR patterns to the AAR result |
| `Extractors.PackagesForAar` | generators/fact-generator-common/src/main/java/org/clyze/doop/util/PackageUtil.java:113-120 | the loop over the embedded JARs returns the union of their JAR results |
| `Extractors.PackagesForBytecode` | generators/fact-generator-common/src/main/java/org/clyze/doop/util/PackageUtil.java:81-83 | exactly one fresh pattern; exact with the whole class name when the name has no '.'; otherwise a wildcard whose text followed by "." starts the name and ends at its last '.' |
| `Reduction.PrefixMap` | generators/fact-generator-common/src/main/java/org/clyze/doop/util/PackageUtil.java:60 | the entries whose key starts with the given prefix, and no others, each the trie's own value for that key |
| `Reduction.PrefixMapSize` | generators/fact-generator-common/src/main/java/org/clyze/doop/util/PackageUtil.java:63 | a prefix map that holds its own key has more than one entry exactly when it holds another key |
| `Reduction.ReducePackages` | generators/fact-generator-common/src/main/java/org/clyze/doop/util/PackageUtil.java:46-79 | the three loops return exactly the exact texts plus `k + ".*"` for every wildcard key no other key literal-prefixes |
| `Reduction.Partition` | generators/fact-generator-common/src/main/java/org/clyze/doop/util/PackageUtil.java:51-55 | one more pattern adds its text to the exact texts or to the trie keys, by its kind |
| `Reduction.MarkCovered` | generators/fact-generator-common/src/main/java/org/clyze/doop/util/PackageUtil.java:58-66 | after the traversal, the trie has the same keys, every entry keeps its key as its text and stays a wildcard, and an entry is deleted exactly when another key is a prefix of it |
| `Reduction.MarkOthersDeleted` | generators/fact-generator-common/src/main/java/org/clyze/doop/util/PackageUtil.java:63-65 | every entry of the prefix map except the prefix's own gets `deleted` set; texts, kinds and all other entries are unchanged |
| `Reduction.MarkStep` | generators/fact-generator-common/src/main/java/org/clyze/doop/util/PackageUtil.java:58-66 | after one more key is processed, exactly the entries covered by a processed key are deleted |
| `Reduction.CoveredStep` | generators/fact-generator-common/src/main/java/org/clyze/doop/util/PackageUtil.java:63-65 | processing `prefix` covers exactly the keys it is a proper prefix of |
| `Reduction.AddUndeleted` | generators/fact-generator-common/src/main/java/org/clyze/doop/util/PackageUtil.java:68-70 | the loop adds the rendering of every trie value not deleted, and nothing else |
| `Reduction.RenderedUndeletedAdd` | generators/fact-generator-common/src/main/java/org/clyze/doop/util/PackageUtil.java:69-70 | one more value adds its rendering exactly when it is not deleted |
| `Reduction.SurvivingValues` | generators/fact-generator-common/src/main/java/org/clyze/doop/util/PackageUtil.java:68-70 | once exactly the covered entries are deleted, the undeleted values render as the surviving keys followed by ".*" |
| `ReductionProperties.CoveredBySurvivor` | generators/fact-generator-common/src/main/java/org/clyze/doop/util/PackageUtil.java:58-70 | every wildcard key starts with some surviving key |
| `ReductionProperties.ReducedCovers` | generators/fact-generator-common/src/main/java/org/clyze/doop/util/PackageUtil.java:51-70 | every exact text is in the result unchanged, and every wildcard is matched by some surviving entry of the result |
| `ReductionProperties.SurvivorsIndependent` | generators/fact-generator-common/src/main/java/org/clyze/doop/util/PackageUtil.java:58-66 | no surviving key is a proper prefix of another |
| `ReductionProperties.SurvivorsIdempotent` | generators/fact-generator-common/src/main/java/org/clyze/doop/util/PackageUtil.java:58-66 | reducing the surviving keys again changes nothing |
| `ReductionProperties.CoveredKeyAbsorbed` | generators/fact-generator-common/src/main/java/org/clyze/doop/util/PackageUtil.java:58-66 | adding a key that starts with a present key leaves the survivors unchanged |
| `ReductionProperties.UnrelatedKeysSurvive` | generators/fact-generator-common/src/main/java/org/clyze/doop/util/PackageUtil.java:58-66 | two keys neither of which starts with the other both survive |
| `ReductionProperties.ExtendedKeyDropped` | generators/fact-generator-common/src/main/java/org/clyze/doop/util/PackageUtil.java:58-66 | of two keys where one extends the other, only the shorter survives |
| `ReductionProperties.ReducedSize` | generators/fact-generator-common/src/main/java/org/clyze/doop/util/PackageUtil.java:46-79 | the result has at most as many entries as there are distinct exact texts plus distinct wildcard keys, and so never more than the input patterns |
| `ReductionProperties.ReducedWithExact` | generators/fact-generator-common/src/main/java/org/clyze/doop/util/PackageUtil.java:51-55 | adding an exact pattern adds its text to the result and changes nothing else |
| `PackageUtil.FormatOf` | generators/fact-generator-common/src/main/java/org/clyze/doop/util/PackageUtil.java:32-40 | each format is chosen exactly when the lower-cased name ends in its own suffix, so the order of the tests does not matter |
| `PackageUtil.SuffixesExclusive` | generators/fact-generator-common/src/main/java/org/clyze/doop/util/PackageUtil.java:33-39 | no name ends in two of the recognised suffixes |
| `PackageUtil.ExtractedFresh` | generators/fact-generator-common/src/main/java/org/clyze/doop/util/PackageUtil.java:151 | no extractor hands a pattern already marked deleted to the reducer |
| `PackageUtil.GetPackages` | generators/fact-generator-common/src/main/java/org/clyze/doop/util/PackageUtil.java:30-44 | dispatching and reducing gives the app regex of the archive, or the exception the APK extraction raised |
| `PackageUtil.AppRegexFailsIff` | generators/fact-generator-common/src/main/java/org/clyze/doop/util/PackageUtil.java:35-36 | the computation throws exactly for an APK with a dex class "L;", and then with bounds (1, 0, 2) |
| `PackageUtil.UnknownFormatIsEmpty` | generators/fact-generator-common/src/main/java/org/clyze/doop/util/PackageUtil.java:41-43 | an unrecognised file name gives the empty app regex |
| `PackageUtil.LowerCasedEnding` | generators/fact-generator-common/src/main/java/org/clyze/doop/util/PackageUtil.java:32 | the lower-cased name ends in the lower-cased extension |
| `PackageUtil.JarOrZipByExtension` | generators/fact-generator-common/src/main/java/org/clyze/doop/util/PackageUtil.java:33-34 | ".jar" and ".ZIP" select the JAR extractor |
| `PackageUtil.JarAppRegex` | generators/fact-generator-common/src/main/java/org/clyze/doop/util/PackageUtil.java:30-44 | for a JAR or ZIP name, the app regex is the reduction of the patterns of its class-file entries and never throws |
| `PackageUtil.BytecodeAppRegex` | generators/fact-generator-common/src/main/java/org/clyze/doop/util/PackageUtil.java:30-44 | for a `.class` name, the app regex is the reduction of the one pattern of the dotted class name and never throws |
| `PackageUtil.ApkByExtension` | generators/fact-generator-common/src/main/java/org/clyze/doop/util/PackageUtil.java:35-36 | ".Apk" selects the APK extractor |
| `PackageUtil.AarByExtension` | generators/fact-generator-common/src/main/java/org/clyze/doop/util/PackageUtil.java:37-38 | ".AAR" selects the AAR extractor |
| `PackageUtil.BytecodeByExtension` | generators/fact-generator-common/src/main/java/org/clyze/doop/util/PackageUtil.java:39-40 | ".Class" selects the single-class extractor |
| `PackageUtil.AppRegexCoversExtracted` | generators/fact-generator-common/src/main/java/org/clyze/doop/util/PackageUtil.java:43 | every extracted exact pattern appears in the app regex, and every extracted wildcard is matched by a surviving entry |
| `PackageUtil.JarEntryCovered` | generators/fact-generator-common/src/main/java/org/clyze/doop/util/PackageUtil.java:133-136 | every class-file entry of a JAR is accounted for in its app regex |
| `Scenarios.NestedPrefixesCollapse` | generators/fact-generator-common/src/main/java/org/clyze/doop/util/PackageUtil.java:58-70 | wildcards "x", "x.y" and "x.y.z" reduce to {"x.*"} |
| `Scenarios.SiblingsKept` | generators/fact-generator-common/src/main/java/org/clyze/doop/util/PackageUtil.java:58-70 | wildcards "a.b" and "c.d" stay apart |
| `Scenarios.LiteralPrefixAbsorbsSibling` | generators/fact-generator-common/src/main/java/org/clyze/doop/util/PackageUtil.java:60-65 | "com.foo" absorbs the unrelated package "com.foobar" |
| `Scenarios.ExactDuplicatesCollapse` | generators/fact-generator-common/src/main/java/org/clyze/doop/util/PackageUtil.java:46-55 | a JAR holding `Base.class` and `/Base.class` has the app regex {"Base"}: both entries give the same exact pattern, kept once |
| `Scenarios.RootedDuplicatePatterns` | generators/fact-generator-common/src/main/java/org/clyze/doop/util/PackageUtil.java:129-139 | the entries `Base.class` and `/Base.class` extract the single exact pattern `Base` |
| `Scenarios.DottedKeyPrefix` | generators/fact-generator-common/src/main/java/org/clyze/doop/util/PackageUtil.java:60 | keys `a + "."` and `b + "."` with dot-free names start with one another only when the names agree |
| `Scenarios.TopDirectoryKey` | generators/fact-generator-common/src/main/java/org/clyze/doop/util/PackageUtil.java:123-124 | a JAR entry `dir/file` with no '/' in `dir` gives the key `dir + "."` |
| `Scenarios.JarSiblingsKept` | generators/fact-generator-common/src/main/java/org/clyze/doop/util/PackageUtil.java:122-136 | classes of two distinct dot-free top-level packages of a JAR give both `a..*` and `b..*`, even when one name prefixes the other |
| `Scenarios.DottedSiblingsKept` | generators/fact-generator-common/src/main/java/org/clyze/doop/util/PackageUtil.java:58-70 | wildcards over `a.` and `b.` with distinct dot-free names both survive |
| `Scenarios.UnrelatedPrefixesKept` | generators/fact-generator-common/src/main/java/org/clyze/doop/util/PackageUtil.java:58-70 | two wildcards neither of which starts with the other reduce to both renderings |
| `Scenarios.PackagesAndTopClass` | generators/fact-generator-common/src/main/java/org/clyze/doop/util/PackageUtil.java:30-44 | a JAR with `a/f.class`, `a/g.class`, `b/h.class` and `Base.class`, for distinct dot-free top-level packages `a` and `b`, has the app regex {"a..*", "b..*", "Base"} |
| `Scenarios.PackagesAndTopPatterns` | generators/fact-generator-common/src/main/java/org/clyze/doop/util/PackageUtil.java:129-139 | those four entries extract the wildcards over `a.` and `b.` and the exact pattern `Base` |
| `Scenarios.SamePackagePatterns` | generators/fact-generator-common/src/main/java/org/clyze/doop/util/PackageUtil.java:129-139 | two classes of one top-level package extract the single wildcard over `a.` |
| `Scenarios.TwoPackagesAndTopReduced` | generators/fact-generator-common/src/main/java/org/clyze/doop/util/PackageUtil.java:46-79 | the wildcards over `a.` and `b.` and the exact `Base` all survive reduction |
| `Scenarios.SingleWildcard` | generators/fact-generator-common/src/main/java/org/clyze/doop/util/PackageUtil.java:58-70 | a lone wildcard survives and is rendered as its key followed by ".*" |
| `Scenarios.ClassFileInPackage` | generators/fact-generator-common/src/main/java/org/clyze/doop/util/PackageUtil.java:30-44 | a `.class` file of class `pkg.Name` with a dot-free `Name` has the app regex {"pkg.*"} |
| `Scenarios.ClassFileInDefaultPackage` | generators/fact-generator-common/src/main/java/org/clyze/doop/util/PackageUtil.java:30-44 | a `.class` file of a dot-free class name has the app regex holding just that name |

## Left out

- ZIP reading (`ZipFile`, which the code never closes), dex loading, AAR
  expansion and `BytecodeUtil.getClassName`. These are foreign binary-format
  readers. Their results are fields of `PackageUtil.Archive`, and the
  `IOException` they may throw is not modelled.
- The temporary directories of `getPackagesForAAR` and their cleanup by
  `JHelper.cleanUp`. This is file-system handling. The cleanup runs only
  when no exception is raised, and the model does not capture that.
- `System.err` diagnostics and the `debug` printing branch. They are output
  only, so a skipped descriptor or an unknown format just contributes
  nothing.
- PatriciaTrie internals and its sorted traversal order. The model uses a
  map and picks keys in an arbitrary order, so it covers the sorted order.
- Identity-based `HashSet<Regex>` membership. Patterns are values here, so
  two equal patterns are one. The reduction keys on text and returns
  strings, so the result is the same.
- Aliasing of the `deleted` flag. In the code the trie stores the very
  objects of the caller's collection, so marking them also changes that
  collection. Here the trie is reducer-local and the caller's set is
  unchanged. Nothing reads the collection after the reduction.
- Reduction.ReducePackages: requires that no input pattern is already
  marked deleted. The code only ever passes freshly built patterns
  (`PackageUtil.ExtractedFresh`).
- The second and third loops of `reducePackages` are separate methods
  (`MarkCovered`, `MarkOthersDeleted`, `AddUndeleted`), and the stream in
  the second loop is a loop over the prefix map. Likewise the inner loop of
  `getPackagesForAPK`, over the classes of one dex unit, is the method
  `Extractors.PackagesForDexUnit`.
- `FilenameUtils` prefixes (drive letters, `~`, a leading ':'), backslash
  separators and its rejection of NUL characters. The model treats every
  name as relative and '/'-separated. Where commons-io finds no valid
  prefix, `getPath` returns null and line 124 throws
  NullPointerException: a JAR entry `":x/A.class"` makes the code throw,
  while `PackageNames.PackageFromClassName` gives `Regex.Prefix(":x.")`.
- `toLowerCase` beyond ASCII letters, and the default-locale rules.
- Java strings as UTF-16 code units. Strings here are sequences of `char`.
- `doop_tfa_securibench.py` is not part of this model. It is process and
  file orchestration only.
