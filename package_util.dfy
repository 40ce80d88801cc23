/** `PackageUtil.getPackages`: the app regex of one input file, chosen by
    the file's extension and reduced to a set of strings. */
module PackageUtil {
  import opened Wrappers
  import opened JavaString
  import opened Patterns
  import opened PackageNames
  import opened Extractors
  import opened Reduction
  import opened ReductionProperties

  /** What the readers of the input file hand over: the file's name, and
      what each kind of reader would find inside it. Only the part that
      matches the file's format is consulted. */
  datatype Archive = Archive(
    name: string,               // `File.getName()`
    zipEntries: seq<string>,    // ZIP entry names, in enumeration order
    dexUnits: seq<seq<string>>, // class descriptors of each dex unit of an APK
    aarJars: seq<seq<string>>,  // entry names of each JAR unpacked from an AAR
    bytecodeClass: string)      // dotted class name read from a .class file

  datatype Format = JarOrZip | Apk | Aar | Bytecode | Unknown

  /** The format of a file name, compared case-insensitively by suffix. The
      suffixes exclude one another, so each format holds exactly when its
      own suffix is present, whatever the order of the tests. */
  function FormatOf(fileName: string): (f: Format)
    ensures var n := ToLowerCase(fileName);
      && (f == JarOrZip <==> EndsWith(n, ".jar") || EndsWith(n, ".zip"))
      && (f == Apk <==> EndsWith(n, ".apk"))
      && (f == Aar <==> EndsWith(n, ".aar"))
      && (f == Bytecode <==> EndsWith(n, ".class"))
  {
    var n := ToLowerCase(fileName);
    SuffixesExclusive(n);
    if EndsWith(n, ".jar") || EndsWith(n, ".zip") then JarOrZip
    else if EndsWith(n, ".apk") then Apk
    else if EndsWith(n, ".aar") then Aar
    else if EndsWith(n, ".class") then Bytecode
    else Unknown
  }

  /** No name ends in two of the recognised suffixes. */
  lemma SuffixesExclusive(n: string)
    ensures !(EndsWith(n, ".jar") && EndsWith(n, ".zip"))
    ensures EndsWith(n, ".apk") ==> !EndsWith(n, ".jar") && !EndsWith(n, ".zip")
    ensures EndsWith(n, ".aar") ==>
      !EndsWith(n, ".jar") && !EndsWith(n, ".zip") && !EndsWith(n, ".apk")
    ensures EndsWith(n, ".class") ==>
      !EndsWith(n, ".jar") && !EndsWith(n, ".zip") && !EndsWith(n, ".apk") && !EndsWith(n, ".aar")
  {
    if |n| >= 4 {
      var last4 := n[|n| - 4..];
      assert EndsWith(n, ".jar") ==> last4[1] == 'j';
      assert EndsWith(n, ".zip") ==> last4[1] == 'z';
      assert EndsWith(n, ".apk") ==> last4[1] == 'a' && last4[2] == 'p';
      assert EndsWith(n, ".aar") ==> last4[1] == 'a' && last4[2] == 'a';
      assert EndsWith(n, ".class") ==> last4[0] == 'l';
    }
  }

  /** The patterns extracted for the file's format, before reduction. A file
      of unknown format contributes no pattern. */
  function Extracted(a: Archive): Result<set<Regex>, Exception> {
    match FormatOf(a.name)
    case JarOrZip => Success(JarPatterns(a.zipEntries))
    case Apk => DescriptorsPatterns(Flatten(a.dexUnits))
    case Aar => Success(AarPatterns(a.aarJars))
    case Bytecode => Success(PackagesForBytecode(a.bytecodeClass))
    case Unknown => Success({})
  }

  /** The app regex of a file: its extracted patterns, reduced, or the
      exception the extraction raised. */
  function AppRegex(a: Archive): Result<set<string>, Exception> {
    match Extracted(a)
    case Success(packages) => Success(Reduced(packages))
    case Failure(e) => Failure(e)
  }

  /** Every extractor builds its patterns fresh, none marked deleted. */
  lemma ExtractedFresh(a: Archive)
    requires Extracted(a).Success?
    ensures forall r :: r in Extracted(a).value ==> !r.deleted
  {
    match FormatOf(a.name)
    case JarOrZip => JarPatternShape(a.zipEntries);
    case Apk =>
      forall r | r in Extracted(a).value ensures !r.deleted {
        DescriptorsContents(Flatten(a.dexUnits), r);
      }
    case Aar =>
      forall r | r in Extracted(a).value ensures !r.deleted {
        AarMember(a.aarJars, r);
        var i :| 0 <= i < |a.aarJars| && r in JarPatterns(a.aarJars[i]);
        JarPatternShape(a.aarJars[i]);
      }
    case Bytecode =>
    case Unknown =>
  }

  /** `getPackages`: dispatch on the lower-cased name, then reduce. */
  method GetPackages(a: Archive) returns (result: Result<set<string>, Exception>)
    ensures result == AppRegex(a)
  {
    var packages: set<Regex> := {};
    match FormatOf(a.name) {
      case JarOrZip =>
        packages := PackagesForJar(a.zipEntries);
      case Apk =>
        var apk := PackagesForApk(a.dexUnits);
        if apk.Failure? {
          return Failure(apk.error);
        }
        packages := apk.value;
      case Aar =>
        packages := PackagesForAar(a.aarJars);
      case Bytecode =>
        packages := PackagesForBytecode(a.bytecodeClass);
      case Unknown =>
    }
    ExtractedFresh(a);
    var reduced := ReducePackages(packages);
    result := Success(reduced);
  }

  /** A JAR or ZIP file's app regex is its JAR patterns, reduced. */
  lemma JarAppRegex(a: Archive)
    requires FormatOf(a.name) == JarOrZip
    ensures AppRegex(a) == Success(Reduced(JarPatterns(a.zipEntries)))
  {
  }

  /** A `.class` file: the app regex reduces the one pattern of its class name. */
  lemma BytecodeAppRegex(a: Archive)
    requires FormatOf(a.name) == Bytecode
    ensures AppRegex(a) == Success(Reduced({PackageFromDots(a.bytecodeClass)}))
  {
  }

  /** Only an APK can make `getPackages` throw, and only through a dex
      class whose descriptor is exactly "L;". */
  lemma AppRegexFailsIff(a: Archive)
    ensures AppRegex(a).Failure? <==>
      FormatOf(a.name) == Apk && exists i :: 0 <= i < |a.dexUnits| && "L;" in a.dexUnits[i]
    ensures AppRegex(a).Failure? ==> AppRegex(a).error == StringIndexOutOfBounds(1, 0, 2)
  {
    if FormatOf(a.name) == Apk {
      DescriptorsFailIff(Flatten(a.dexUnits));
      FlattenMember(a.dexUnits, "L;");
    }
  }

  /** A file of unrecognised format has an empty app regex. */
  lemma UnknownFormatIsEmpty(a: Archive)
    requires FormatOf(a.name) == Unknown
    ensures AppRegex(a) == Success({})
  {
    assert Extracted(a) == Success({});
    assert ExactTexts({}) == {} && WildcardKeys({}) == {} && Survivors({}) == {};
    assert Reduced({}) == {};
  }

  /** Lower-casing a name with a given ending leaves the lower-cased ending. */
  lemma LowerCasedEnding(stem: string, ext: string)
    ensures EndsWith(ToLowerCase(stem + ext), ToLowerCase(ext))
  {
    ToLowerCaseAppend(stem, ext);
    var n := ToLowerCase(stem + ext);
    assert n[|n| - |ext|..] == ToLowerCase(ext);
  }

  /** ".jar" and ".zip", in any letter case, select the JAR reader. */
  lemma JarOrZipByExtension(stem: string)
    ensures FormatOf(stem + ".jar") == JarOrZip
    ensures FormatOf(stem + ".ZIP") == JarOrZip
  {
    LowerCasedEnding(stem, ".jar");
    assert ToLowerCase(".jar") == ".jar";
    LowerCasedEnding(stem, ".ZIP");
    assert ToLowerCase(".ZIP") == ".zip";
  }

  /** ".apk", in any letter case, selects the dex reader. */
  lemma ApkByExtension(stem: string)
    ensures FormatOf(stem + ".Apk") == Apk
  {
    LowerCasedEnding(stem, ".Apk");
    assert ToLowerCase(".Apk") == ".apk";
  }

  /** ".aar", in any letter case, selects the AAR reader. */
  lemma AarByExtension(stem: string)
    ensures FormatOf(stem + ".AAR") == Aar
  {
    LowerCasedEnding(stem, ".AAR");
    assert ToLowerCase(".AAR") == ".aar";
  }

  /** ".class", in any letter case, selects the class-file reader. */
  lemma BytecodeByExtension(stem: string)
    ensures FormatOf(stem + ".Class") == Bytecode
  {
    LowerCasedEnding(stem, ".Class");
    assert ToLowerCase(".Class") == ".class";
  }

  /** Nothing extracted is lost: an exact pattern appears in the app regex
      as is, and a wildcard is matched by a surviving wildcard entry. */
  lemma AppRegexCoversExtracted(a: Archive, r: Regex)
    requires Extracted(a).Success? && r in Extracted(a).value
    ensures AppRegex(a).Success?
    ensures !r.isWildcard ==> r.text in AppRegex(a).value
    ensures r.isWildcard ==> exists s :: StartsWith(r.text, s) && s + ".*" in AppRegex(a).value
  {
    ReducedCovers(Extracted(a).value);
  }

  /** For a JAR, every `.class` entry is accounted for in the app regex. */
  lemma JarEntryCovered(a: Archive, entry: string)
    requires FormatOf(a.name) == JarOrZip
    requires entry in a.zipEntries && EndsWith(entry, ".class")
    ensures var r := PackageFromClassName(entry);
      && (!r.isWildcard ==> r.text in AppRegex(a).value)
      && (r.isWildcard ==> exists s :: StartsWith(r.text, s) && s + ".*" in AppRegex(a).value)
  {
    AppRegexCoversExtracted(a, PackageFromClassName(entry));
  }
}
