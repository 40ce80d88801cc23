/** The Apache Commons IO `FilenameUtils` operations used on ZIP entry names,
    for relative names whose only separator is '/'. */
module FilenameUtils {
  import opened JavaString

  /** `getName`: the last path component (everything after the last '/'). */
  function GetName(path: string): (r: string)
    ensures '/' !in r
    ensures EndsWith(path, r)
    ensures r == path || path[|path| - |r| - 1] == '/'
  {
    path[LastIndexOf(path, '/') + 1..]
  }

  /** `getPath` for a name without prefix: everything up to and including
      the last '/', so the trailing separator is kept. */
  function GetPath(path: string): (r: string)
    ensures r == [] || r[|r| - 1] == '/'
    ensures r + GetName(path) == path
  {
    path[..LastIndexOf(path, '/') + 1]
  }

  /** `removeExtension`: drops the last '.' and what follows, unless a
      separator comes after that '.'. */
  function RemoveExtension(name: string): (r: string)
    ensures StartsWith(name, r)
    ensures r == name <==> ('.' !in name || '/' in name[LastIndexOf(name, '.')..])
    ensures r != name ==> name[|r|] == '.' && '.' !in name[|r| + 1..]
  {
    var ext := LastIndexOf(name, '.');
    if ext == -1 || LastIndexOf(name, '/') > ext then name else name[..ext]
  }

  /** `getBaseName`: the last path component without its extension. */
  function GetBaseName(path: string): (r: string)
    ensures '/' !in r
    ensures StartsWith(GetName(path), r)
    ensures r == GetName(path) <==> '.' !in GetName(path)
    ensures r != GetName(path) ==> GetName(path)[|r|] == '.' && '.' !in GetName(path)[|r| + 1..]
  {
    RemoveExtension(GetName(path))
  }
}
