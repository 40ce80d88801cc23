/** Concrete inputs and the app regex PackageUtil computes for them. */
module Scenarios {
  import opened Wrappers
  import opened JavaString
  import opened Patterns
  import opened PackageNames
  import opened Extractors
  import opened Reduction
  import opened ReductionProperties
  import opened PackageUtil

  /** Nested wildcards collapse to the outermost one. */
  lemma NestedPrefixesCollapse()
    ensures Reduced({Regex.Prefix("x"), Regex.Prefix("x.y"), Regex.Prefix("x.y.z")}) == {"x.*"}
  {
    var p := {Regex.Prefix("x"), Regex.Prefix("x.y"), Regex.Prefix("x.y.z")};
    assert WildcardKeys(p) == {"x", "x.y", "x.y.z"};
    assert ExactTexts(p) == {};
    assert "x.y"[..1] == "x" && "x.y.z"[..3] == "x.y";
    ExtendedKeyDropped("x", "x.y");
    CoveredKeyAbsorbed({"x", "x.y"}, "x.y.z", "x.y");
    assert {"x", "x.y"} + {"x.y.z"} == {"x", "x.y", "x.y.z"};
    RenderingOfTwo("x", "x");
    assert "x" + ".*" == "x.*";
  }

  /** Wildcards under different roots are both kept. */
  lemma SiblingsKept()
    ensures Reduced({Regex.Prefix("a.b"), Regex.Prefix("c.d")}) == {"a.b.*", "c.d.*"}
  {
    var p := {Regex.Prefix("a.b"), Regex.Prefix("c.d")};
    assert WildcardKeys(p) == {"a.b", "c.d"};
    assert ExactTexts(p) == {};
    assert "a.b"[..3][0] != "c.d"[0];
    UnrelatedKeysSurvive("a.b", "c.d");
    RenderingOfTwo("a.b", "c.d");
    assert "a.b" + ".*" == "a.b.*" && "c.d" + ".*" == "c.d.*";
  }

  /** The prefix test is on characters, not on package segments: "com.foo"
      absorbs the unrelated package "com.foobar". */
  lemma LiteralPrefixAbsorbsSibling()
    ensures Reduced({Regex.Prefix("com.foo"), Regex.Prefix("com.foobar")}) == {"com.foo.*"}
  {
    var p := {Regex.Prefix("com.foo"), Regex.Prefix("com.foobar")};
    assert WildcardKeys(p) == {"com.foo", "com.foobar"};
    assert ExactTexts(p) == {};
    assert "com.foobar"[..7] == "com.foo";
    ExtendedKeyDropped("com.foo", "com.foobar");
    RenderingOfTwo("com.foo", "com.foo");
    assert "com.foo" + ".*" == "com.foo.*";
  }

  /** Two keys of the form `name + "."` with dot-free names start with one
      another only when the names agree. */
  lemma DottedKeyPrefix(a: string, b: string)
    requires '.' !in b
    ensures StartsWith(b + ".", a + ".") ==> a == b
  {
    if StartsWith(b + ".", a + ".") {
      assert (b + ".")[|a|] == (a + ".")[|a|] == '.';
      assert forall i :: 0 <= i < |b| ==> (b + ".")[i] == b[i] != '.';
      assert |a| == |b|;
      assert a == (a + ".")[..|a|] == (b + ".")[..|b|] == b;
    }
  }

  /** A JAR directory with no '/' gives the key `dir + "."`. */
  lemma TopDirectoryKey(dir: string, file: string)
    requires |dir| > 0 && '/' !in dir && '/' !in file
    ensures PackageFromClassName(dir + "/" + file) == Regex.Prefix(dir + ".")
  {
    ClassInDirectory(dir, file);
    var r := Replace(dir + "/", '/', '.');
    assert forall i :: 0 <= i < |dir| ==> (dir + "/")[i] == dir[i] != '/';
    assert r == dir + ".";
  }

  /** The JAR extractor's keys keep the trailing separator, so classes of two
      distinct top-level packages stay apart even when one package name is a
      spelling prefix of the other ("com" and "commons"). */
  lemma JarSiblingsKept(a: string, b: string, f: string, g: string)
    requires a != b && |a| > 0 && |b| > 0
    requires '/' !in a && '/' !in b && '.' !in a && '.' !in b
    requires '/' !in f && '/' !in g
    ensures Reduced({PackageFromClassName(a + "/" + f), PackageFromClassName(b + "/" + g)})
      == {a + "..*", b + "..*"}
  {
    TopDirectoryKey(a, f);
    TopDirectoryKey(b, g);
    DottedSiblingsKept(a, b);
  }

  lemma DottedSiblingsKept(a: string, b: string)
    requires a != b && '.' !in a && '.' !in b
    ensures Reduced({Regex.Prefix(a + "."), Regex.Prefix(b + ".")}) == {a + "..*", b + "..*"}
  {
    DottedKeyPrefix(a, b);
    DottedKeyPrefix(b, a);
    UnrelatedPrefixesKept(a + ".", b + ".");
    assert "." + ".*" == "..*";
    assert (a + ".") + ".*" == a + ("." + ".*");
    assert (b + ".") + ".*" == b + ("." + ".*");
  }

  /** Two wildcards neither of whose keys starts with the other are both kept. */
  lemma UnrelatedPrefixesKept(x: string, y: string)
    requires !StartsWith(x, y) && !StartsWith(y, x)
    ensures Reduced({Regex.Prefix(x), Regex.Prefix(y)}) == {x + ".*", y + ".*"}
  {
    var p := {Regex.Prefix(x), Regex.Prefix(y)};
    assert Regex.Prefix(x) in p && Regex.Prefix(y) in p;
    assert forall r :: r in p ==> r.isWildcard && (r.text == x || r.text == y);
    assert WildcardKeys(p) == {x, y};
    assert ExactTexts(p) == {};
    UnrelatedKeysSurvive(x, y);
    RenderingOfTwo(x, y);
  }

  /** Two JAR entries naming the same default-package class, once with a
      leading '/', give a single exact entry: `indexOf("/")` is 0 for the
      second, so it too takes the base-name branch. */
  lemma ExactDuplicatesCollapse(stem: string, base: string)
    requires '/' !in base && '.' !in base
    ensures AppRegex(Archive(stem + ".jar", [base + ".class", "/" + (base + ".class")], [], [], ""))
      == Success({base})
  {
    var n := base + ".class";
    var a := Archive(stem + ".jar", [n, "/" + n], [], [], "");
    RootedDuplicatePatterns(base);
    SingleExact(base);
    JarOrZipByExtension(stem);
    JarAppRegex(a);
  }

  /** Both entries give the exact pattern of `base`. */
  lemma RootedDuplicatePatterns(base: string)
    requires '/' !in base && '.' !in base
    ensures JarPatterns([base + ".class", "/" + (base + ".class")]) == {Regex.Exact(base)}
  {
    var n := base + ".class";
    ClassInDefaultPackage(base);
    ClassAtRoot(base);
    assert EndsWith(".class", ".class");
    EndsWithAppend(base, ".class", ".class");
    EndsWithAppend("/", n, ".class");
    TwoClassEntries(n, "/" + n);
  }

  /** A single exact pattern reduces to its text. */
  lemma SingleExact(t: string)
    ensures Reduced({Regex.Exact(t)}) == {t}
  {
    assert ExactTexts({}) == {} && WildcardKeys({}) == {} && Survivors({}) == {};
    ReducedWithExact({}, t);
    assert {} + {Regex.Exact(t)} == {Regex.Exact(t)};
  }

  /** A JAR holding two classes of package `a`, one of package `b` and one
      in the default package, such as `foo/A.class`, `foo/B.class`,
      `bar/C.class` and `Top.class`. The app regex is
      {"foo..*", "bar..*", "Top"}: each package keeps the separator `getPath`
      leaves at its end, so it is rendered with two dots, and the two
      packages are not merged. */
  lemma PackagesAndTopClass(stem: string, a: string, b: string,
                            f: string, g: string, h: string, base: string)
    requires |a| > 0 && |b| > 0 && a != b
    requires '/' !in a && '/' !in b && '.' !in a && '.' !in b
    requires '/' !in f && '/' !in g && '/' !in h
    requires EndsWith(f, ".class") && EndsWith(g, ".class") && EndsWith(h, ".class")
    requires '/' !in base && '.' !in base
    ensures AppRegex(Archive(stem + ".jar", [a + "/" + f, a + "/" + g, b + "/" + h, base + ".class"], [], [], ""))
      == Success({a + "..*", b + "..*", base})
  {
    var entries := [a + "/" + f, a + "/" + g, b + "/" + h, base + ".class"];
    PackagesAndTopPatterns(a, b, f, g, h, base);
    TwoPackagesAndTopReduced(a, b, base);
    JarOrZipByExtension(stem);
    JarAppRegex(Archive(stem + ".jar", entries, [], [], ""));
  }

  /** The four entries of `PackagesAndTopClass` extract two package wildcards and one exact class. */
  lemma PackagesAndTopPatterns(a: string, b: string, f: string, g: string, h: string, base: string)
    requires |a| > 0 && |b| > 0
    requires '/' !in a && '/' !in b
    requires '/' !in f && '/' !in g && '/' !in h
    requires EndsWith(f, ".class") && EndsWith(g, ".class") && EndsWith(h, ".class")
    requires '/' !in base && '.' !in base
    ensures JarPatterns([a + "/" + f, a + "/" + g, b + "/" + h, base + ".class"])
      == {Regex.Prefix(a + "."), Regex.Prefix(b + ".")} + {Regex.Exact(base)}
  {
    var e1, e2, e3, e4 := a + "/" + f, a + "/" + g, b + "/" + h, base + ".class";
    SamePackagePatterns(a, f, g);
    PackageAndTopPatterns(b, h, base);
    FourEntriesSplit(e1, e2, e3, e4);
  }

  /** Four entries extract what their two halves extract. */
  lemma FourEntriesSplit(w: string, x: string, y: string, z: string)
    ensures JarPatterns([w, x, y, z]) == JarPatterns([w, x]) + JarPatterns([y, z])
  {
    JarPatternsConcat([w, x], [y, z]);
    assert [w, x] + [y, z] == [w, x, y, z];
  }

  /** Two sibling package wildcards and an exact top class all stay. */
  lemma TwoPackagesAndTopReduced(a: string, b: string, base: string)
    requires a != b && '.' !in a && '.' !in b
    ensures Reduced({Regex.Prefix(a + "."), Regex.Prefix(b + ".")} + {Regex.Exact(base)})
      == {a + "..*", b + "..*", base}
  {
    DottedSiblingsKept(a, b);
    ReducedWithExact({Regex.Prefix(a + "."), Regex.Prefix(b + ".")}, base);
    assert {a + "..*", b + "..*"} + {base} == {a + "..*", b + "..*", base};
  }

  /** Two classes of one top-level package give a single wildcard. */
  lemma SamePackagePatterns(a: string, f: string, g: string)
    requires |a| > 0 && '/' !in a && '/' !in f && '/' !in g
    requires EndsWith(f, ".class") && EndsWith(g, ".class")
    ensures JarPatterns([a + "/" + f, a + "/" + g]) == {Regex.Prefix(a + ".")}
  {
    EndsWithAppend(a + "/", f, ".class");
    EndsWithAppend(a + "/", g, ".class");
    TopDirectoryKey(a, f);
    TopDirectoryKey(a, g);
    TwoClassEntries(a + "/" + f, a + "/" + g);
  }

  /** A packaged class and a default-package class give a wildcard and an
      exact pattern. */
  lemma PackageAndTopPatterns(b: string, h: string, base: string)
    requires |b| > 0 && '/' !in b && '/' !in h && EndsWith(h, ".class")
    requires '/' !in base && '.' !in base
    ensures JarPatterns([b + "/" + h, base + ".class"]) == {Regex.Prefix(b + "."), Regex.Exact(base)}
  {
    EndsWithAppend(b + "/", h, ".class");
    assert EndsWith(".class", ".class");
    EndsWithAppend(base, ".class", ".class");
    TopDirectoryKey(b, h);
    ClassInDefaultPackage(base);
    TwoClassEntries(b + "/" + h, base + ".class");
  }

  /** A lone wildcard survives and is rendered with ".*". */
  lemma SingleWildcard(k: string)
    ensures Reduced({Regex.Prefix(k)}) == {k + ".*"}
  {
    var p := {Regex.Prefix(k)};
    assert WildcardKeys(p) == {k};
    assert ExactTexts(p) == {};
    assert Survivors({k}) == {k} by { assert !Covered(k, {k}); }
    RenderingOfTwo(k, k);
  }

  /** A `.class` file of class `pkg.Name` has the app regex {"pkg.*"}. */
  lemma ClassFileInPackage(stem: string, pkg: string, name: string)
    requires '.' !in name
    ensures AppRegex(Archive(stem + ".Class", [], [], [], pkg + "." + name)) == Success({pkg + ".*"})
  {
    var cls := pkg + "." + name;
    DottedClassPackage(pkg, name);
    SingleWildcard(pkg);
    BytecodeByExtension(stem);
    BytecodeAppRegex(Archive(stem + ".Class", [], [], [], cls));
  }

  /** A `.class` file of a class in the default package has the app regex
      holding just its name. */
  lemma ClassFileInDefaultPackage(stem: string, name: string)
    requires '.' !in name
    ensures AppRegex(Archive(stem + ".Class", [], [], [], name)) == Success({name})
  {
    assert PackageFromDots(name) == Regex.Exact(name);
    SingleExact(name);
    BytecodeByExtension(stem);
    BytecodeAppRegex(Archive(stem + ".Class", [], [], [], name));
  }
}
