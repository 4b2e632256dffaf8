/** The generator's path helpers: where the test of a source file goes, the
    full path of a path given relative to the working directory, and the path
    by which a test file imports its source. The working directory,
    `process.cwd()`, is the parameter `cwd`. */
module Resolver {
  import opened JsText
  import opened PosixPath

  /** The test file's name: the source's base name, the suffix, and the
      source's extension with its first `.` removed, joined with `.`. */
  function TestFilename(srcPath: string, testSuffix: string): string
  {
    var extension := Extname(srcPath);
    Join([BasenameWithoutExt(srcPath), testSuffix, ReplaceFirst(extension, ".", "")], ".")
  }

  /** `generateTestFilePath`: the test file sits under `testDirectory`, in the
      source's directory, with the name `TestFilename` gives. */
  function GenerateTestFilePath(srcPath: string, testDirectory: string := "tests", testSuffix: string := "spec"): string
  {
    PathJoin([testDirectory, Dirname(srcPath), TestFilename(srcPath, testSuffix)])
  }

  /** `getFullpath`: a path that starts with `./` is joined onto the working
      directory as it is; any other path is joined as `./` followed by it. */
  function GetFullpath(cwd: string, relativePath: string): string
  {
    if IsPrefix("./", relativePath) then PathJoin([cwd, relativePath])
    else PathJoin([cwd, Join([".", relativePath], "/")])
  }

  /** `generateSourcePathInTest`: the way from the directory of `from` to the
      directory of `to`, followed by the base name of `to` without its
      extension. */
  function GenerateSourcePathInTest(cwd: string, from: string, to: string): string
    requires IsAbsolute(cwd)
  {
    var relativePath := Relative(cwd, Dirname(from), Dirname(to));
    PathJoin([relativePath, BasenameWithoutExt(to)])
  }

  // ---------------------------------------------------------------------------
  // generateTestFilePath
  // ---------------------------------------------------------------------------

  /** What an extension looks like: empty, or a `.` followed by text
      without `.` or `/`. */
  predicate IsExtension(e: string) {
    e == "" || (e[0] == '.' && '.' !in e[1..] && '/' !in e)
  }

  lemma ExtnameIsExtension(p: string)
    ensures IsExtension(Extname(p))
  {
    var e := Extname(p);
    if e != "" {
      assert e == Basename(p)[|Basename(p)| - |e|..];
    }
  }

  /** The name built from a base, a suffix and an extension. */
  lemma NameShape(base: string, testSuffix: string, e: string)
    requires IsExtension(e)
    ensures Join([base, testSuffix, ReplaceFirst(e, ".", "")], ".")
         == base + "." + testSuffix + (if e == "" then "." else e)
  {
    var tail := ReplaceFirst(e, ".", "");
    JoinThree(base, testSuffix, tail, ".");
    if e == "" {
      assert tail == "";
    } else {
      assert IsPrefix(".", e);
      assert tail == e[1..];
      assert "." + tail == e;
      ConcatAssoc(base + "." + testSuffix, ".", tail);
    }
  }

  /** The name is the base name, `.`, the suffix, `.`, and the extension
      without its dot; a source without an extension gives a name that ends
      in `.`. */
  lemma TestFilenameShape(srcPath: string, testSuffix: string)
    ensures TestFilename(srcPath, testSuffix)
         == BasenameWithoutExt(srcPath) + "." + testSuffix + (if Extname(srcPath) == "" then "." else Extname(srcPath))
  {
    ExtnameIsExtension(srcPath);
    NameShape(BasenameWithoutExt(srcPath), testSuffix, Extname(srcPath));
  }

  lemma NameIsName(base: string, testSuffix: string, e: string)
    requires base != "" && '/' !in base && '/' !in testSuffix && IsExtension(e)
    ensures IsName(base + "." + testSuffix + (if e == "" then "." else e))
  {
    var name := base + "." + testSuffix + (if e == "" then "." else e);
    assert |name| >= 3;
    assert '/' !in name;
  }

  lemma TestFilenameIsName(srcPath: string, testSuffix: string)
    requires Basename(srcPath) != "" && '/' !in testSuffix
    ensures IsName(TestFilename(srcPath, testSuffix))
  {
    TestFilenameShape(srcPath, testSuffix);
    ExtnameIsExtension(srcPath);
    var b := BasenameWithoutExt(srcPath);
    assert b != "" && '/' !in b by {
      assert Basename(srcPath) == b + Extname(srcPath);
      assert forall i :: 0 <= i < |b| ==> b[i] == Basename(srcPath)[i];
    }
    NameIsName(b, testSuffix, Extname(srcPath));
  }

  /** Extension and base of a built name. */
  lemma NameExtension(head: string, e: string)
    requires head != "" && head != "." && '/' !in head && e != "" && e[0] == '.' && '.' !in e[1..] && '/' !in e
    ensures Extname(head + e) == e
    ensures BasenameWithoutExt(head + e) == head
  {
    var name := head + e;
    assert '/' !in name;
    BasenameNoSlash(name);
    LastDotAt(head, e);
    assert name != ".." by {
      if |name| == 2 {
        assert head == [name[0]];
      }
    }
    ExtnameAt(name, |head|);
    assert name[|head|..] == e && name[..|head|] == head;
  }

  lemma NoSlashInParts(a: string, b: string)
    requires '/' !in a + b
    ensures '/' !in a && '/' !in b
  {
    assert forall i :: 0 <= i < |a| ==> a[i] == (a + b)[i];
    assert forall i :: 0 <= i < |b| ==> b[i] == (a + b)[|a| + i];
  }

  /** The last `.` of the test file's name is the one its extension starts
      with: the test file keeps the source's extension, and with none it gets
      the extension `.`. */
  lemma TestFilenameExtension(srcPath: string, testSuffix: string)
    requires Basename(srcPath) != "" && '/' !in testSuffix
    ensures Extname(TestFilename(srcPath, testSuffix)) == (if Extname(srcPath) == "" then "." else Extname(srcPath))
    ensures BasenameWithoutExt(TestFilename(srcPath, testSuffix)) == BasenameWithoutExt(srcPath) + "." + testSuffix
  {
    var name := TestFilename(srcPath, testSuffix);
    var b := BasenameWithoutExt(srcPath);
    var e := if Extname(srcPath) == "" then "." else Extname(srcPath);
    TestFilenameIsName(srcPath, testSuffix);
    TestFilenameShape(srcPath, testSuffix);
    ExtnameIsExtension(srcPath);
    assert b != "" by {
      assert Basename(srcPath) == b + Extname(srcPath);
    }
    var head := b + "." + testSuffix;
    assert name == head + e;
    NoSlashInParts(head, e);
    NameExtension(head, e);
  }

  /** The `.` that starts a dot-free tail is the last one. */
  lemma LastDotAt(head: string, e: string)
    requires head != "" && e != "" && e[0] == '.' && '.' !in e[1..]
    ensures LastIndexOf(head + e, '.') == |head|
  {
    var s := head + e;
    if |e| == 1 {
      assert s[|s| - 1] == '.';
    } else {
      assert s[..|s| - 1] == head + e[..|e| - 1];
      assert e[|e| - 1] == e[1..][|e| - 2];
      LastDotAt(head, e[..|e| - 1]);
    }
  }

  /** The test file is named `TestFilename` and sits in the join of the test
      directory and the source's directory: the source tree is mirrored
      under the test directory. */
  lemma TestFileMirrorsSource(srcPath: string, testDirectory: string, testSuffix: string)
    requires Basename(srcPath) != "" && '/' !in testSuffix
    ensures Basename(GenerateTestFilePath(srcPath, testDirectory, testSuffix)) == TestFilename(srcPath, testSuffix)
    ensures Dirname(GenerateTestFilePath(srcPath, testDirectory, testSuffix)) == PathJoin([testDirectory, Dirname(srcPath), "."])
  {
    TestFilenameIsName(srcPath, testSuffix);
    NameUnderDirectory(testDirectory, Dirname(srcPath), TestFilename(srcPath, testSuffix));
  }

  lemma NameUnderDirectory(top: string, dir: string, name: string)
    requires dir != "" && IsName(name)
    ensures Basename(PathJoin([top, dir, name])) == name
    ensures Dirname(PathJoin([top, dir, name])) == PathJoin([top, dir, "."])
  {
    var parts := [top, dir];
    assert [top] + [dir] == parts;
    assert parts + [name] == [top, dir, name];
    assert parts + ["."] == [top, dir, "."];
    NonEmptyAppend([top], dir);
    PathJoinName(parts, name);
  }

  // ---------------------------------------------------------------------------
  // getFullpath
  // ---------------------------------------------------------------------------

  /** Prefixing `./` changes nothing: `getFullpath(cwd, "./p") == getFullpath(cwd, "p")`. */
  lemma GetFullpathDotSlash(cwd: string, p: string)
    ensures GetFullpath(cwd, "./" + p) == GetFullpath(cwd, p)
  {
    assert IsPrefix("./", "./" + p);
    if IsPrefix("./", p) {
      PathJoinDotSlash(cwd, p);
    } else {
      assert Join([".", p], "/") == "./" + p;
    }
  }

  /** For a non-empty path and working directory, the full path is their
      normalised join. */
  lemma GetFullpathIsJoin(cwd: string, p: string)
    requires cwd != "" && p != ""
    ensures GetFullpath(cwd, p) == PathJoin([cwd, p])
  {
    if !IsPrefix("./", p) {
      DotSlashJoin(p);
      PathJoinDotSlash(cwd, p);
    }
  }

  lemma DotSlashJoin(p: string)
    ensures Join([".", p], "/") == "./" + p
  {
    assert [".", p][1..] == [p];
    assert "." + "/" + p == "./" + p;
  }

  /** The full path is absolute, and it leads where `./p` resolves to: where
      `p` resolves to for a relative `p`, and under the working directory even
      for an absolute `p`. */
  lemma GetFullpathResolves(cwd: string, p: string)
    requires IsAbsolute(cwd)
    ensures IsAbsolute(GetFullpath(cwd, p))
    ensures ResolvedSegments(cwd, GetFullpath(cwd, p)) == ResolvedSegments(cwd, "./" + p)
    ensures !IsAbsolute(p) ==> ResolvedSegments(cwd, GetFullpath(cwd, p)) == ResolvedSegments(cwd, p)
  {
    var q := "./" + p;
    var x := cwd + "/" + q;
    GetFullpathDotSlash(cwd, p);
    assert IsPrefix("./", q);
    NonEmptyPair(cwd, q);
    assert Join([cwd, q], "/") == x;
    assert GetFullpath(cwd, p) == Normalize(x);
    assert x[0] == '/';
    NormalizeAbsolute(x);
    NormalizeResolves(cwd, x);
    assert q[0] == '.';
    if !IsAbsolute(p) {
      WalkAppend([], cwd, q);
      WalkAppend([], cwd, p);
      DotSlashWalk(Walk([], cwd), p);
    }
  }

  // ---------------------------------------------------------------------------
  // generateSourcePathInTest
  // ---------------------------------------------------------------------------

  /** The import path ends in the base name of `to` without its extension,
      and it is never absolute. */
  lemma SourcePathEndsInBase(cwd: string, from: string, to: string)
    requires IsAbsolute(cwd) && IsName(BasenameWithoutExt(to))
    ensures Basename(GenerateSourcePathInTest(cwd, from, to)) == BasenameWithoutExt(to)
    ensures Basename(GenerateSourcePathInTest(cwd, from, to)) + Extname(to) == Basename(to)
    ensures !IsAbsolute(GenerateSourcePathInTest(cwd, from, to))
  {
    var rel := Relative(cwd, Dirname(from), Dirname(to));
    RelativeNotAbsolute(cwd, Dirname(from), Dirname(to));
    BasenameJoinedName(rel, BasenameWithoutExt(to));
    WalkJoinedName([], rel, BasenameWithoutExt(to));
  }

  /** The round trip: joining the import path onto the test file's directory
      leads to the source, its extension removed. */
  lemma SourcePathRoundTrip(cwd: string, from: string, to: string)
    requires IsAbsolute(cwd) && IsName(BasenameWithoutExt(to))
    ensures ResolvedSegments(cwd, PathJoin([Dirname(from), GenerateSourcePathInTest(cwd, from, to)]))
         == ResolvedSegments(cwd, Dirname(to)) + [BasenameWithoutExt(to)]
  {
    var d := Dirname(from);
    var r := GenerateSourcePathInTest(cwd, from, to);
    var rel := Relative(cwd, d, Dirname(to));
    assert r == PathJoin([rel, BasenameWithoutExt(to)]);
    NonEmptyPair(d, r);
    assert Join([d, r], "/") == d + "/" + r;
    assert PathJoin([d, r]) == Normalize(d + "/" + r);
    NormalizeResolves(cwd, d + "/" + r);
    ResolveAppend(cwd, d, r);
    RelativeNotAbsolute(cwd, d, Dirname(to));
    WalkJoinedName(ResolvedSegments(cwd, d), rel, BasenameWithoutExt(to));
    RelativeWalk(cwd, d, Dirname(to));
  }
  /** A test file in its source's directory imports the bare base name:
      `path.join` leaves no `./` in front. */
  lemma SourcePathSameDirectory(cwd: string, from: string, to: string)
    requires IsAbsolute(cwd) && IsName(BasenameWithoutExt(to))
    requires ResolvedSegments(cwd, Dirname(from)) == ResolvedSegments(cwd, Dirname(to))
    ensures GenerateSourcePathInTest(cwd, from, to) == BasenameWithoutExt(to)
  {
    RelativeSame(cwd, Dirname(from), Dirname(to));
    NonEmptyPair("", BasenameWithoutExt(to));
    NormalizeName(BasenameWithoutExt(to));
  }
}
