/**
 * The on-disk cache layout of a course (app/models/course.rb:96-141):
 * `<file store root>/course/<name>-<cache_version>/<leaf>`.
 * The file store root is a configuration value, passed as a parameter.
 */
module CachePaths {
  import opened Text

  /** `Course.cache_root`: one non-empty directory directly under the file store root. */
  function CacheRoot(storeRoot: string): (root: string)
    ensures |root| > |storeRoot| + 1
    ensures root[..|storeRoot| + 1] == storeRoot + "/"
    ensures '/' !in root[|storeRoot| + 1..]
  {
    var root := storeRoot + "/course";
    assert root[|storeRoot| + 1..] == "course";
    root
  }

  /** `Course#cache_path`: the course's name and cache version under the cache root. */
  function CachePath(storeRoot: string, name: string, version: int): (p: string)
    ensures StartsWith(p, CacheRoot(storeRoot) + "/")
    ensures p[|CacheRoot(storeRoot)| + 1..] == name + "-" + IntToString(version)
  {
    var p := CacheRoot(storeRoot) + "/" + name + "-" + IntToString(version);
    assert p == (CacheRoot(storeRoot) + "/") + (name + "-" + IntToString(version));
    p
  }

  /** The five directories kept under a course's cache path. */
  datatype CacheDir = Clone | Solution | Stub | StubZip | SolutionZip

  /** Leaf names of `clone_path`, `solution_path`, `stub_path`, `stub_zip_path`, `solution_zip_path`. */
  function DirName(d: CacheDir): (leaf: string)
    ensures |leaf| > 0 && '/' !in leaf
  {
    match d
    case Clone => "clone"
    case Solution => "solution"
    case Stub => "stub"
    case StubZip => "stub_zip"
    case SolutionZip => "solution_zip"
  }

  /** `clone_path`, `solution_path`, `stub_path`, `stub_zip_path` and `solution_zip_path`. */
  function CacheDirPath(storeRoot: string, name: string, version: int, d: CacheDir): (p: string)
    ensures StartsWith(p, CachePath(storeRoot, name, version) + "/")
    ensures p[|CachePath(storeRoot, name, version)| + 1..] == DirName(d)
  {
    var p := CachePath(storeRoot, name, version) + "/" + DirName(d);
    assert p == (CachePath(storeRoot, name, version) + "/") + DirName(d);
    p
  }

  /** Distinct directories of one course have distinct paths. */
  lemma CacheDirsDistinct(storeRoot: string, name: string, version: int, d1: CacheDir, d2: CacheDir)
    requires d1 != d2
    ensures CacheDirPath(storeRoot, name, version, d1) != CacheDirPath(storeRoot, name, version, d2)
  {
    assert DirName(d1) != DirName(d2);
  }

  /** For non-negative versions, `(name, version)` determines the cache path and back. */
  lemma CachePathInjective(storeRoot: string, n1: string, v1: int, n2: string, v2: int)
    requires v1 >= 0 && v2 >= 0
    requires CachePath(storeRoot, n1, v1) == CachePath(storeRoot, n2, v2)
    ensures n1 == n2 && v1 == v2
  {
    var t := CachePath(storeRoot, n1, v1)[|CacheRoot(storeRoot)| + 1..];
    var d1, d2 := IntToString(v1), IntToString(v2);
    assert t == n1 + "-" + d1 == n2 + "-" + d2;
    LastIndexOfAt(t, '-', |n1|);
    LastIndexOfAt(t, '-', |n2|);
    assert n1 == t[..|n1|] && n2 == t[..|n2|];
    assert d1 == t[|n1| + 1..] && d2 == t[|n2| + 1..];
    IntToStringInjective(v1, v2);
  }

  /** Two versions of the same course never share a cache path, whatever their sign. */
  lemma CachePathVersionInjective(storeRoot: string, name: string, v1: int, v2: int)
    requires CachePath(storeRoot, name, v1) == CachePath(storeRoot, name, v2)
    ensures v1 == v2
  {
    var t := CachePath(storeRoot, name, v1)[|CacheRoot(storeRoot)| + 1..];
    assert IntToString(v1) == t[|name| + 1..] == IntToString(v2);
    IntToStringInjective(v1, v2);
  }

  /** No directory of one (name, non-negative version) is a directory of another. */
  lemma CacheDirPathInjective(storeRoot: string, n1: string, v1: int, d1: CacheDir, n2: string, v2: int, d2: CacheDir)
    requires v1 >= 0 && v2 >= 0
    requires CacheDirPath(storeRoot, n1, v1, d1) == CacheDirPath(storeRoot, n2, v2, d2)
    ensures n1 == n2 && v1 == v2 && d1 == d2
  {
    var s := CacheDirPath(storeRoot, n1, v1, d1);
    var c1, c2 := CachePath(storeRoot, n1, v1), CachePath(storeRoot, n2, v2);
    assert s[|c1|] == '/' && s[|c2|] == '/';
    LastIndexOfAt(s, '/', |c1|);
    LastIndexOfAt(s, '/', |c2|);
    assert c1 == s[..|c1|] && c2 == s[..|c2|];
    CachePathInjective(storeRoot, n1, v1, n2, v2);
    assert DirName(d1) == DirName(d2);
  }

  /**
   * With a negative version the layout is ambiguous: the name "a" at
   * version -5 and the name "a-" at version 5 share one cache path.
   */
  lemma NegativeVersionCollides(storeRoot: string)
    ensures CachePath(storeRoot, "a", -5) == CachePath(storeRoot, "a-", 5)
  {
    assert IntToString(-5) == "-5";
    assert IntToString(5) == "5";
  }
}
