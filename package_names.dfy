/** The three ways PackageUtil turns one class name into one pattern. */
module PackageNames {
  import opened JavaString
  import opened FilenameUtils
  import opened Patterns

  /** `getPackageFromDots`: a dotted class name gives a wildcard over its
      package (the text before the last '.'); a name without '.' is exact. */
  function PackageFromDots(s: string): (r: Regex)
    ensures !r.deleted
    ensures r.isWildcard <==> '.' in s
    ensures !r.isWildcard ==> r.text == s
    ensures r.isWildcard ==> StartsWith(s, r.text + ".") && '.' !in s[|r.text| + 1..]
  {
    var idx := LastIndexOf(s, '.');
    if idx == -1 then Regex.Exact(s)
    else
      assert s[..idx + 1] == s[..idx] + ".";
      Regex.Prefix(s[..idx])
  }

  /** `getPackageFromSlashes`: an internal name with '/' gives a wildcard over
      the part before the last '/', dotted; a name without '/' is exact. */
  /** `pkg.Name` with a dot-free `Name` gives the wildcard over `pkg`. */
  lemma DottedClassPackage(pkg: string, name: string)
    requires '.' !in name
    ensures PackageFromDots(pkg + "." + name) == Regex.Prefix(pkg)
  {
    var s := pkg + "." + name;
    assert s == pkg + ['.'] + name;
    LastIndexOfSplit(pkg, '.', name);
    assert s[..|pkg|] == pkg;
  }

  function PackageFromSlashes(s: string): (r: Regex)
    ensures !r.deleted
    ensures r.isWildcard <==> '/' in s
    ensures '/' !in r.text && |r.text| <= |s|
    ensures !r.isWildcard ==> r.text == s
    ensures r.isWildcard ==>
      && |r.text| < |s| && s[|r.text|] == '/' && '/' !in s[|r.text| + 1..]
      && r.text == Replace(s[..|r.text|], '/', '.')
  {
    var idx := LastIndexOf(s, '/');
    var dotted := Replace(s, '/', '.');
    if idx == -1 then
      assert dotted == s;
      Regex.Exact(dotted)
    else
      assert dotted[..idx] == Replace(s[..idx], '/', '.');
      Regex.Prefix(dotted[..idx])
  }

  /** `getPackageFromClassName`, for ZIP entry names: when the first '/' is
      past position 0 the result is a wildcard over the directory part,
      trailing separator included, dotted (so it ends in '.'); otherwise it
      is the exact base name without its extension. */
  function PackageFromClassName(className: string): (r: Regex)
    ensures !r.deleted
    ensures r.isWildcard <==> |className| > 0 && className[0] != '/' && '/' in className
    ensures '/' !in r.text
    ensures r.isWildcard ==>
      && 0 < |r.text| <= |className| && EndsWith(r.text, ".")
      && r.text == Replace(className[..|r.text|], '/', '.')
      && className[|r.text| - 1] == '/' && '/' !in className[|r.text|..]
    ensures !r.isWildcard ==> r.text == GetBaseName(className)
  {
    if IndexOf(className, '/') > 0 then
      var path := GetPath(className);
      assert className[..|path|] == path;
      Regex.Prefix(Replace(path, '/', '.'))
    else Regex.Exact(GetBaseName(className))
  }

  /** A class file inside a directory gives a wildcard over the dotted
      directory, its trailing separator included. */
  lemma ClassInDirectory(dir: string, file: string)
    requires |dir| > 0 && dir[0] != '/' && '/' !in file
    ensures PackageFromClassName(dir + "/" + file) == Regex.Prefix(Replace(dir + "/", '/', '.'))
  {
    var s := dir + "/" + file;
    LastIndexOfSplit(dir, '/', file);
    assert s[0] == dir[0] && s[|dir|] == '/';
    assert GetPath(s) == dir + "/";
  }

  /** A class file at the top level gives its exact name, ".class" removed. */
  lemma ClassInDefaultPackage(base: string)
    requires '/' !in base && '.' !in base
    ensures PackageFromClassName(base + ".class") == Regex.Exact(base)
  {
    var s := base + ".class";
    assert s[|base|] == '.' && s[|base| + 1..] == "class";
    assert '/' !in s;
    assert GetName(s) == s;
    var r := GetBaseName(s);
    assert s[|r|] == '.';
    assert forall i :: 0 <= i < |base| ==> s[i] == base[i] != '.';
    assert forall i :: |r| < i < |s| ==> s[i] == s[|r| + 1..][i - |r| - 1] != '.';
    assert |r| == |base|;
    assert r == s[..|base|] == base;
  }

  /** A name with a leading '/' fails the `> 0` test, so a class file at
      the root gives the exact pattern of its base name, as one in the
      default package does. */
  lemma ClassAtRoot(base: string)
    requires '/' !in base && '.' !in base
    ensures PackageFromClassName("/" + (base + ".class")) == Regex.Exact(base)
  {
    var n := base + ".class";
    var s := "/" + n;
    assert '/' !in n by {
      assert ".class" == ['.', 'c', 'l', 'a', 's', 's'];
    }
    RootedIsExact(s);
    NameAfterRoot(n);
    ClassFileBaseName(base);
    assert GetBaseName(s) == GetBaseName(n);
  }

  /** A name starting with '/' always gives the exact pattern of its base name. */
  lemma RootedIsExact(s: string)
    requires |s| > 0 && s[0] == '/'
    ensures PackageFromClassName(s) == Regex.Exact(GetBaseName(s))
  {
  }

  /** The base name of `base.class` is `base`. */
  lemma ClassFileBaseName(base: string)
    requires '/' !in base && '.' !in base
    ensures GetBaseName(base + ".class") == base
  {
    ClassInDefaultPackage(base);
  }

  /** A leading '/' is not part of the last path component. */
  lemma NameAfterRoot(n: string)
    requires '/' !in n
    ensures GetName("/" + n) == n && GetName(n) == n
  {
    LastIndexOfSplit([], '/', n);
    assert "/" == ['/'] && [] + ['/'] == ['/'];
  }

  /** A descriptor body with a package gives a wildcard over the dotted
      package, without the last separator. */
  lemma SlashesInPackage(dir: string, name: string)
    requires '/' !in name
    ensures PackageFromSlashes(dir + "/" + name) == Regex.Prefix(Replace(dir, '/', '.'))
  {
    var s := dir + "/" + name;
    LastIndexOfSplit(dir, '/', name);
    assert s[..|dir|] == dir;
    ReplacePrefix(s, |dir|, '/', '.');
  }
}
