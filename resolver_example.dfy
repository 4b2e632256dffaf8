/** `generateTestFilePath` on a source nested in directories: first for any
    nested source path, then for `src/a/b.js`. */
module ResolverExample {
  import opened JsText
  import opened PosixPath
  import opened Resolver

  /** A source `d1/…/dn/stem.x` under a relative test directory `t1/…/tm`
      gets the test file `t1/…/tm/d1/…/dn/stem.suffix.x`. */
  lemma NestedSource(ts: seq<string>, ds: seq<string>, stem: string, x: string, testSuffix: string)
    requires ts != [] && AllNames(ts) && ds != [] && AllNames(ds)
    requires IsName(stem) && '.' !in stem && x != "" && '/' !in x && '.' !in x && '/' !in testSuffix
    ensures GenerateTestFilePath(Join(ds + [stem + "." + x], "/"), Join(ts, "/"), testSuffix)
         == Join(ts + ds + [stem + "." + testSuffix + "." + x], "/")
  {
    var src := Join(ds + [stem + "." + x], "/");
    var name := stem + "." + testSuffix + "." + x;
    SourceTestName(ds, stem, x, testSuffix);
    SourceParts(ds, stem, x);
    assert GenerateTestFilePath(src, Join(ts, "/"), testSuffix) == PathJoin([Join(ts, "/"), Join(ds, "/"), name]);
    TestPathParts(ts, ds, name);
  }

  /** The test file name of `d1/…/dn/stem.x` is `stem.suffix.x`. */
  lemma SourceTestName(ds: seq<string>, stem: string, x: string, testSuffix: string)
    requires ds != [] && AllNames(ds)
    requires IsName(stem) && '.' !in stem && x != "" && '/' !in x && '.' !in x && '/' !in testSuffix
    ensures TestFilename(Join(ds + [stem + "." + x], "/"), testSuffix) == stem + "." + testSuffix + "." + x
    ensures IsName(stem + "." + testSuffix + "." + x)
  {
    var src := Join(ds + [stem + "." + x], "/");
    SourceParts(ds, stem, x);
    DottedTestName(src, stem, x, testSuffix);
    NameIsName(stem, testSuffix, "." + x);
  }

  lemma DottedTestName(src: string, stem: string, x: string, testSuffix: string)
    requires x != "" && Extname(src) == "." + x && BasenameWithoutExt(src) == stem
    ensures TestFilename(src, testSuffix) == stem + "." + testSuffix + "." + x
  {
    TestFilenameShape(src, testSuffix);
    assert Extname(src) != "";
    ConcatAssoc(stem + "." + testSuffix, ".", x);
  }

  lemma NestedFile(ds: seq<string>, file: string)
    requires ds != [] && AllNames(ds) && IsName(file)
    ensures Basename(Join(ds + [file], "/")) == file
    ensures Dirname(Join(ds + [file], "/")) == Join(ds, "/")
  {
    assert Render(false, ds + [file], false) == Join(ds + [file], "/");
    assert Render(false, ds, false) == Join(ds, "/");
    RenderLastName(false, ds, file);
  }

  lemma DottedFile(stem: string, x: string)
    requires IsName(stem) && '.' !in stem && x != "" && '/' !in x && '.' !in x
    ensures IsName(stem + "." + x)
    ensures Extname(stem + "." + x) == "." + x
    ensures BasenameWithoutExt(stem + "." + x) == stem
  {
    var file := stem + "." + x;
    assert file == stem + ("." + x);
    assert |file| >= 3;
    assert ("." + x)[1..] == x;
    NameExtension(stem, "." + x);
  }

  lemma SourceParts(ds: seq<string>, stem: string, x: string)
    requires ds != [] && AllNames(ds)
    requires IsName(stem) && '.' !in stem && x != "" && '/' !in x && '.' !in x
    ensures var src := Join(ds + [stem + "." + x], "/");
      && Dirname(src) == Join(ds, "/")
      && Extname(src) == "." + x
      && BasenameWithoutExt(src) == stem
  {
    var file := stem + "." + x;
    var src := Join(ds + [file], "/");
    DottedFile(stem, x);
    NestedFile(ds, file);
    BasenameNoSlash(file);
    SameBasename(src, file);
  }

  lemma TestPathParts(ts: seq<string>, ds: seq<string>, name: string)
    requires ts != [] && AllNames(ts) && ds != [] && AllNames(ds) && IsName(name)
    ensures PathJoin([Join(ts, "/"), Join(ds, "/"), name]) == Join(ts + ds + [name], "/")
  {
    var a, b := Join(ts, "/"), Join(ds, "/");
    JoinHead(ts, "/");
    JoinHead(ds, "/");
    NonEmptyAppend([a], b);
    NonEmptyAppend([a, b], name);
    assert [a, b] + [name] == [a, b, name];
    assert [a] + [b] == [a, b];
    assert NonEmpty([a, b, name]) == [a, b, name];
    assert Join([name], "/") == name;
    assert Join([b, name], "/") == b + "/" + name;
    assert [a, b, name][1..] == [b, name];
    assert Join([a, b, name], "/") == a + "/" + (b + "/" + name);
    JoinConcat(ts, ds + [name], "/");
    JoinAppend(ds, name, "/");
    var all := ts + ds + [name];
    assert all == ts + (ds + [name]);
    assert AllNames(all);
    NormalizeNames(all);
  }

  lemma ExampleNames()
    ensures AllNames(["tests"]) && AllNames(["src", "a"]) && IsName("b") && '.' !in "b"
  {
  }

  lemma DottedB()
    ensures "b" + "." + "js" == "b.js"
    ensures "b" + "." + "spec" + "." + "js" == "b.spec.js"
  {
    assert "b" + "." == "b.";
    assert "b." + "js" == "b.js";
    assert "b." + "spec" == "b.spec";
    assert "b.spec" + "." == "b.spec.";
    assert "b.spec." + "js" == "b.spec.js";
  }

  lemma ExampleJoins()
    ensures Join(["src", "a"] + ["b" + "." + "js"], "/") == "src/a/b.js"
    ensures Join(["tests"], "/") == "tests"
    ensures Join(["tests"] + ["src", "a"] + ["b" + "." + "spec" + "." + "js"], "/") == "tests/src/a/b.spec.js"
  {
    DottedB();
    assert ["src", "a"] + ["b.js"] == ["src", "a", "b.js"];
    SourceJoin();
    assert ["tests"] + ["src", "a"] + ["b.spec.js"] == ["tests", "src", "a", "b.spec.js"];
    TestJoin();
  }

  lemma SourceJoin()
    ensures Join(["src", "a", "b.js"], "/") == "src/a/b.js"
  {
    JoinThree("src", "a", "b.js", "/");
    assert "src" + "/" + "a" + "/" + "b.js" == "src/a/b.js";
  }

  lemma TestJoin()
    ensures Join(["tests", "src", "a", "b.spec.js"], "/") == "tests/src/a/b.spec.js"
  {
    var parts := ["tests", "src", "a", "b.spec.js"];
    assert parts[1..] == ["src", "a", "b.spec.js"];
    JoinThree("src", "a", "b.spec.js", "/");
    assert "src" + "/" + "a" + "/" + "b.spec.js" == "src/a/b.spec.js";
    assert "tests" + "/" + "src/a/b.spec.js" == "tests/src/a/b.spec.js";
  }

  /** With the default test directory and suffix, `src/a/b.js` is tested by
      `tests/src/a/b.spec.js`. */
  lemma NestedSrcExample()
    ensures GenerateTestFilePath("src/a/b.js") == "tests/src/a/b.spec.js"
  {
    ExampleNames();
    ExampleJoins();
    NestedSource(["tests"], ["src", "a"], "b", "js", "spec");
  }
}
