/** The per-format extraction of PackageUtil: each turns what a foreign
    reader reports about an archive into an unreduced set of patterns.
    ZIP entry names, dex class descriptors and the class name of a class
    file are inputs here; the readers themselves are not modelled. */
module Extractors {
  import opened Wrappers
  import opened JavaString
  import opened Patterns
  import opened PackageNames

  // ---------------------------------------------------------------------
  // JAR / ZIP

  /** The patterns a JAR with these entry names yields: one per entry whose
      name ends in ".class", derived from the entry name. */
  function JarPatterns(entries: seq<string>): set<Regex> {
    set e | e in entries && EndsWith(e, ".class") :: PackageFromClassName(e)
  }

  /** The patterns of two class-file entries. */
  lemma TwoClassEntries(n: string, m: string)
    requires EndsWith(n, ".class") && EndsWith(m, ".class")
    ensures JarPatterns([n, m]) == {PackageFromClassName(n), PackageFromClassName(m)}
  {
    assert [] + [n] == [n] && [n] + [m] == [n, m];
    assert JarPatterns([]) == {};
    JarPatternsAppend([], n);
    JarPatternsAppend([n], m);
  }

  /** The JAR result of two runs of entries is the union of their results. */
  lemma JarPatternsConcat(xs: seq<string>, ys: seq<string>)
    ensures JarPatterns(xs + ys) == JarPatterns(xs) + JarPatterns(ys)
  {
    forall r | r in JarPatterns(xs + ys) ensures r in JarPatterns(xs) + JarPatterns(ys) {
      var e :| e in xs + ys && EndsWith(e, ".class") && r == PackageFromClassName(e);
    }
  }

  /** `getPackagesForJAR`: walks the entries and adds the pattern of every
      class-file entry. */
  method PackagesForJar(entries: seq<string>) returns (packages: set<Regex>)
    ensures packages == JarPatterns(entries)
  {
    packages := {};
    var i := 0;
    while i < |entries|
      invariant 0 <= i <= |entries|
      invariant packages == JarPatterns(entries[..i])
    {
      var name := entries[i];
      JarPatternsStep(entries, i);
      if EndsWith(name, ".class") {
        packages := packages + {PackageFromClassName(name)};
      }
      i := i + 1;
    }
    assert entries[..i] == entries;
  }

  lemma JarPatternsStep(entries: seq<string>, i: nat)
    requires i < |entries|
    ensures JarPatterns(entries[..i + 1]) ==
      JarPatterns(entries[..i]) + (if EndsWith(entries[i], ".class") then {PackageFromClassName(entries[i])} else {})
  {
    assert entries[..i + 1] == entries[..i] + [entries[i]];
    JarPatternsAppend(entries[..i], entries[i]);
  }

  lemma JarPatternsAppend(entries: seq<string>, name: string)
    ensures JarPatterns(entries + [name]) ==
      JarPatterns(entries) + (if EndsWith(name, ".class") then {PackageFromClassName(name)} else {})
  {
    JarPatternsConcat(entries, [name]);
    JarPatternsSingle(name);
  }

  /** A single entry yields its pattern exactly when it is a class file. */
  lemma JarPatternsSingle(name: string)
    ensures JarPatterns([name]) == (if EndsWith(name, ".class") then {PackageFromClassName(name)} else {})
  {
    var ps := JarPatterns([name]);
    forall p | p in ps ensures EndsWith(name, ".class") && p == PackageFromClassName(name) {
      var e :| e in [name] && EndsWith(e, ".class") && p == PackageFromClassName(e);
    }
    if EndsWith(name, ".class") {
      assert PackageFromClassName(name) in ps by { assert name in [name]; }
    }
  }

  /** Every JAR pattern is fresh (not deleted), holds no '/', and a JAR
      wildcard key ends in '.', the kept separator of its directory. */
  lemma JarPatternShape(entries: seq<string>)
    ensures forall r :: r in JarPatterns(entries) ==>
      && !r.deleted && '/' !in r.text
      && (r.isWildcard ==> EndsWith(r.text, "."))
  {
  }

  // ---------------------------------------------------------------------
  // APK

  /** A dex class descriptor passes the check `startsWith("L") && endsWith(";")`. */
  predicate WellShaped(d: string): (b: bool)
    ensures b <==> 2 <= |d| && d[0] == 'L' && d[|d| - 1] == ';'
  {
    assert "L"[0] == 'L' && ";"[0] == ';';
    StartsWith(d, "L") && EndsWith(d, ";")
  }

  /** One step of `getPackagesForAPK`, as written: a descriptor failing the
      shape check contributes nothing; otherwise `substring(1, length()-2)`
      (which drops the ';' and one more character) goes through
      `getPackageFromSlashes`. The only descriptor that passes the check and
      makes the substring throw is "L;". */
  function DescriptorPattern(d: string): (r: Result<Option<Regex>, Exception>)
    ensures !WellShaped(d) ==> r == Success(None)
    ensures r.Failure? <==> d == "L;"
    ensures r.Failure? ==> r.error == StringIndexOutOfBounds(1, 0, 2)
    ensures r.Success? && WellShaped(d) ==>
      3 <= |d| && r.value == Some(PackageFromSlashes(d[1..|d| - 2]))
  {
    if !StartsWith(d, "L") || !EndsWith(d, ";") then Success(None)
    else
      assert |d| < 3 ==> d == "L;" by {
        if |d| < 3 { assert |d| == 2 && d[0] == 'L' && d[1] == ';'; }
      }
      match Substring(d, 1, |d| - 2)
      case Failure(e) => Failure(e)
      case Success(body) => Success(Some(PackageFromSlashes(body)))
  }

  /** The APK result over descriptors in enumeration order: the patterns of
      all accepted descriptors, or the exception of the first "L;". */
  function DescriptorsPatterns(ds: seq<string>): Result<set<Regex>, Exception> {
    if ds == [] then Success({})
    else
      match DescriptorsPatterns(ds[..|ds| - 1])
      case Failure(e) => Failure(e)
      case Success(pkgs) =>
        match DescriptorPattern(ds[|ds| - 1])
        case Failure(e) => Failure(e)
        case Success(None) => Success(pkgs)
        case Success(Some(p)) => Success(pkgs + {p})
  }

  /** The descriptors of all dex units, one unit after the other. */
  function Flatten(units: seq<seq<string>>): seq<string> {
    if units == [] then [] else Flatten(units[..|units| - 1]) + units[|units| - 1]
  }

  lemma {:induction false} FlattenMember(units: seq<seq<string>>, d: string)
    ensures d in Flatten(units) <==> exists i :: 0 <= i < |units| && d in units[i]
  {
    if units != [] {
      var init := units[..|units| - 1];
      FlattenMember(init, d);
      if d in Flatten(units) && d !in units[|units| - 1] {
        var i :| 0 <= i < |init| && d in init[i];
        assert units[i] == init[i];
      }
      if i :| 0 <= i < |units| && d in units[i] {
        if i < |init| { assert init[i] == units[i]; }
      }
    }
  }

  /** The APK extraction throws exactly when some dex unit holds the
      descriptor "L;", and the exception is then that of `substring(1, 0)`. */
  lemma {:induction false} DescriptorsFailIff(ds: seq<string>)
    ensures DescriptorsPatterns(ds).Failure? <==> "L;" in ds
    ensures DescriptorsPatterns(ds).Failure? ==>
      DescriptorsPatterns(ds).error == StringIndexOutOfBounds(1, 0, 2)
  {
    if ds != [] {
      DescriptorsFailIff(ds[..|ds| - 1]);
      assert ds == ds[..|ds| - 1] + [ds[|ds| - 1]];
    }
  }

  /** On success the APK extraction yields exactly the pattern of each
      accepted descriptor, whatever the order of the descriptors. */
  lemma {:induction false} DescriptorsContents(ds: seq<string>, p: Regex)
    requires DescriptorsPatterns(ds).Success?
    ensures p in DescriptorsPatterns(ds).value <==>
      exists d :: d in ds && WellShaped(d) && 3 <= |d| && p == PackageFromSlashes(d[1..|d| - 2])
  {
    if ds != [] {
      var init, last := ds[..|ds| - 1], ds[|ds| - 1];
      assert ds == init + [last];
      DescriptorsContents(init, p);
      if p in DescriptorsPatterns(ds).value && p !in DescriptorsPatterns(init).value {
        assert WellShaped(last) && p == PackageFromSlashes(last[1..|last| - 2]);
      }
    }
  }

  lemma DescriptorsStep(ds: seq<string>, d: string, pkgs: set<Regex>)
    requires DescriptorsPatterns(ds) == Success(pkgs)
    requires DescriptorPattern(d).Success?
    ensures DescriptorsPatterns(ds + [d]) ==
      Success(if DescriptorPattern(d).value.Some? then pkgs + {DescriptorPattern(d).value.value} else pkgs)
  {
    assert (ds + [d])[..|ds|] == ds;
  }

  lemma FlattenStep(units: seq<seq<string>>, i: nat)
    requires i < |units|
    ensures Flatten(units[..i + 1]) == Flatten(units[..i]) + units[i]
  {
    assert units[..i + 1][..i] == units[..i];
  }

  /** `getPackagesForAPK`: walks the dex units and their class descriptors,
      skipping malformed ones; the exception of "L;" escapes. */
  method PackagesForApk(dexUnits: seq<seq<string>>) returns (result: Result<set<Regex>, Exception>)
    ensures result == DescriptorsPatterns(Flatten(dexUnits))
  {
    var pkgs: set<Regex> := {};
    ghost var done: seq<string> := [];
    var i := 0;
    while i < |dexUnits|
      invariant 0 <= i <= |dexUnits|
      invariant done == Flatten(dexUnits[..i])
      invariant DescriptorsPatterns(done) == Success(pkgs)
    {
      FlattenStep(dexUnits, i);
      var unit := PackagesForDexUnit(dexUnits[i], done, pkgs);
      if unit.Failure? {
        UnitFailureEscapes(dexUnits, i, done);
        return Failure(unit.error);
      }
      pkgs := unit.value;
      done := done + dexUnits[i];
      i := i + 1;
    }
    assert dexUnits[..i] == dexUnits;
    return Success(pkgs);
  }

  /** The inner loop of `getPackagesForAPK` over the classes of one dex
      unit, continuing from the patterns `pkgs` of the descriptors `done`
      walked before it. */
  method PackagesForDexUnit(classes: seq<string>, ghost done: seq<string>, pkgs: set<Regex>)
    returns (result: Result<set<Regex>, Exception>)
    requires DescriptorsPatterns(done) == Success(pkgs)
    ensures result == DescriptorsPatterns(done + classes)
  {
    var acc := pkgs;
    var j := 0;
    assert done + classes[..0] == done;
    while j < |classes|
      invariant 0 <= j <= |classes|
      invariant DescriptorsPatterns(done + classes[..j]) == Success(acc)
    {
      var className := classes[j];
      if !StartsWith(className, "L") || !EndsWith(className, ";") {
        // reported on standard error and skipped
        UnitStep(done, classes, j, acc, None);
      } else {
        var body := Substring(className, 1, |className| - 2);
        if body.Failure? {
          ShortDescriptor(className);
          UnitThrows(done, classes, j);
          return Failure(body.error);
        }
        UnitStep(done, classes, j, acc, Some(PackageFromSlashes(body.value)));
        acc := acc + {PackageFromSlashes(body.value)};
      }
      j := j + 1;
    }
    assert classes[..j] == classes;
    return Success(acc);
  }

  /** The walk over a dex unit, one class further. */
  lemma UnitStep(done: seq<string>, classes: seq<string>, j: nat, acc: set<Regex>, p: Option<Regex>)
    requires j < |classes| && DescriptorsPatterns(done + classes[..j]) == Success(acc)
    requires DescriptorPattern(classes[j]) == Success(p)
    ensures DescriptorsPatterns(done + classes[..j + 1]) == Success(if p.Some? then acc + {p.value} else acc)
  {
    var prefix := done + classes[..j];
    assert done + classes[..j + 1] == prefix + [classes[j]] by {
      assert classes[..j + 1] == classes[..j] + [classes[j]];
    }
    DescriptorsStep(prefix, classes[j], acc);
  }

  /** The only descriptor the shape check lets through that is too short
      for the substring is "L;". */
  lemma ShortDescriptor(d: string)
    requires StartsWith(d, "L") && EndsWith(d, ";") && |d| < 3
    ensures d == "L;"
  {
    assert d[0] == 'L' && d[|d| - 1] == ';';
  }

  /** An "L;" among the classes of a dex unit makes the walk throw, whatever
      came before it. */
  lemma UnitThrows(done: seq<string>, classes: seq<string>, j: nat)
    requires j < |classes| && classes[j] == "L;"
    ensures DescriptorsPatterns(done + classes) == Failure(StringIndexOutOfBounds(1, 0, 2))
  {
    assert (done + classes)[|done| + j] == "L;";
    DescriptorsFailIff(done + classes);
  }

  /** A dex unit that fails after a successful prefix fails the whole walk
      with the same exception. */
  lemma UnitFailureEscapes(dexUnits: seq<seq<string>>, i: nat, done: seq<string>)
    requires i < |dexUnits|
    requires DescriptorsPatterns(done).Success? && DescriptorsPatterns(done + dexUnits[i]).Failure?
    ensures DescriptorsPatterns(Flatten(dexUnits)) == DescriptorsPatterns(done + dexUnits[i])
  {
    DescriptorsFailIff(done);
    DescriptorsFailIff(done + dexUnits[i]);
    assert "L;" in dexUnits[i];
    var j :| 0 <= j < |dexUnits[i]| && dexUnits[i][j] == "L;";
    ApkThrows(dexUnits, i, j);
  }

  lemma ApkThrows(dexUnits: seq<seq<string>>, i: nat, j: nat)
    requires i < |dexUnits| && j < |dexUnits[i]| && dexUnits[i][j] == "L;"
    ensures DescriptorsPatterns(Flatten(dexUnits)) == Failure(StringIndexOutOfBounds(1, 0, 2))
  {
    FlattenMember(dexUnits, "L;");
    DescriptorsFailIff(Flatten(dexUnits));
  }

  /** `substring(1, length()-1)`: the class name between 'L' and ';', which
      `getPackagesForAPK` evidently means to take. */
  function IntendedDescriptorPattern(d: string): (r: Option<Regex>)
    ensures r.Some? <==> WellShaped(d)
  {
    if !WellShaped(d) then None
    else
      assert d[0] == 'L' && d[|d| - 1] == ';';
      Some(PackageFromSlashes(d[1..|d| - 1]))
  }

  /** With the intended bounds a descriptor `L<name>;` yields the pattern of
      exactly `name`, and no well-shaped descriptor throws. */
  lemma IntendedDescriptorRoundTrip(name: string)
    ensures IntendedDescriptorPattern("L" + name + ";") == Some(PackageFromSlashes(name))
  {
    var d := "L" + name + ";";
    assert d[..1] == "L" && d[|d| - 1..] == ";" && d[1..|d| - 1] == name;
  }

  /** As written, a default-package class loses the last letter of its
      name: "LTop;" yields the exact pattern "To" where "Top" is meant. */
  lemma DefaultPackageDescriptorTruncated()
    ensures DescriptorPattern("LTop;") == Success(Some(Regex.Exact("To")))
    ensures IntendedDescriptorPattern("LTop;") == Some(Regex.Exact("Top"))
  {
    var d := "LTop;";
    assert d[1..|d| - 2] == "To" && '/' !in "To";
    assert d[1..|d| - 1] == "Top" && '/' !in "Top";
  }

  /** As written, an accepted descriptor `L<body>;` with a non-empty body
      passes on the body without its last character. */
  lemma DescriptorDropsLastChar(body: string)
    requires |body| >= 1
    ensures DescriptorPattern("L" + body + ";") == Success(Some(PackageFromSlashes(body[..|body| - 1])))
  {
    var d := "L" + body + ";";
    assert d[..1] == "L" && d[|d| - 1..] == ";" && d[1..|d| - 2] == body[..|body| - 1];
  }

  lemma DropLastOfAppend(a: string, b: string)
    requires |b| > 0
    ensures (a + b)[..|a| + |b| - 1] == a + b[..|b| - 1]
  {
  }

  /** Still, a class inside a package gives the wildcard over the dotted
      package: the lost character belongs to the class name. */
  lemma DescriptorInPackage(pkg: string, name: string)
    requires |name| > 0 && '/' !in name
    ensures DescriptorPattern("L" + (pkg + "/" + name) + ";") == Success(Some(Regex.Prefix(Replace(pkg, '/', '.'))))
  {
    var body := pkg + "/" + name;
    var stem := name[..|name| - 1];
    assert body[..|body| - 1] == pkg + "/" + stem by {
      DropLastOfAppend(pkg + "/", name);
    }
    DescriptorDropsLastChar(body);
    SlashesInPackage(pkg, stem);
  }

  // ---------------------------------------------------------------------
  // AAR

  /** The union of a sequence of pattern sets. */
  function Union(parts: seq<set<Regex>>): set<Regex> {
    if parts == [] then {} else Union(parts[..|parts| - 1]) + parts[|parts| - 1]
  }

  lemma {:induction false} UnionMember(parts: seq<set<Regex>>, p: Regex)
    ensures p in Union(parts) <==> exists i :: 0 <= i < |parts| && p in parts[i]
  {
    if parts != [] {
      var init := parts[..|parts| - 1];
      UnionMember(init, p);
      if p in Union(init) {
        var i :| 0 <= i < |init| && p in init[i];
        assert parts[i] == init[i];
      }
      if i :| 0 <= i < |parts| && p in parts[i] {
        if i < |init| {
          assert init[i] == parts[i];
        }
      }
    }
  }

  /** The JAR result of each embedded JAR. */
  function JarResults(jars: seq<seq<string>>): (r: seq<set<Regex>>)
    ensures |r| == |jars|
    ensures forall i :: 0 <= i < |jars| ==> r[i] == JarPatterns(jars[i])
  {
    seq(|jars|, i requires 0 <= i < |jars| => JarPatterns(jars[i]))
  }

  /** The patterns of an AAR: the union of those of its embedded JARs. */
  function AarPatterns(jars: seq<seq<string>>): set<Regex> {
    Union(JarResults(jars))
  }

  lemma AarMember(jars: seq<seq<string>>, p: Regex)
    ensures p in AarPatterns(jars) <==> exists i :: 0 <= i < |jars| && p in JarPatterns(jars[i])
  {
    UnionMember(JarResults(jars), p);
  }

  /** One more embedded JAR adds its own patterns to those of the ones before. */
  lemma AarStep(jars: seq<seq<string>>, i: nat)
    requires i < |jars|
    ensures AarPatterns(jars[..i + 1]) == AarPatterns(jars[..i]) + JarPatterns(jars[i])
  {
    var r := JarResults(jars[..i + 1]);
    assert r[..i] == JarResults(jars[..i]);
  }

  /** `getPackagesForAAR`: the JAR extraction of every embedded JAR, united. */
  method PackagesForAar(jars: seq<seq<string>>) returns (ret: set<Regex>)
    ensures ret == AarPatterns(jars)
  {
    ret := {};
    var i := 0;
    while i < |jars|
      invariant 0 <= i <= |jars|
      invariant ret == AarPatterns(jars[..i])
    {
      var packages := PackagesForJar(jars[i]);
      ret := ret + packages;
      AarStep(jars, i);
      i := i + 1;
    }
    assert jars[..i] == jars;
  }

  // ---------------------------------------------------------------------
  // Single class file

  /** `getPackagesForBytecode`: the one pattern of the class's dotted name. */
  function PackagesForBytecode(className: string): (r: set<Regex>)
    ensures |r| == 1
    ensures forall p :: p in r ==> !p.deleted && (p.isWildcard <==> '.' in className)
    ensures forall p :: p in r && !p.isWildcard ==> p.text == className
    ensures forall p :: p in r && p.isWildcard ==>
      StartsWith(className, p.text + ".")
    ensures forall p :: p in r && p.isWildcard ==> |p.text| == LastIndexOf(className, '.')
  {
    {PackageFromDots(className)}
  }
}
