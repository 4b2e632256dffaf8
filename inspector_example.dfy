/** The inspector on a text with one declaration and three calls through its
    binding, two of them to the same member: first for any binding, module and
    pair of members, then for `foo`, `bar-lib`, `baz` and `qux`; and on the
    logger line of the HTTP controller. */
module InspectorExample {
  import opened JsText
  import opened Inspector

  /** A line `name.w(` followed by text without periods holds exactly that call. */
  lemma OneCall(name: string, w: string, rest: string)
    requires '(' !in name && AllWord(w) && '.' !in rest
    ensures CallSites(CallOf(name, w) + rest, name) == [CallOf(name, w)]
  {
    var x := CallOf(name, w) + rest;
    var n := |CallOf(name, w)|;
    assert x[..n] == CallOf(name, w);
    CallLengthOf(x, name, w);
    assert x[n..] == rest;
    NoCallSitesWithoutDot(rest, name);
  }

  /** What the example's binding, module, members and call arguments must satisfy. */
  predicate Plain(name: string, m: string, w1: string, w2: string, args: seq<string>) {
    && name != [] && Trim(name) == name && OnOneLine(name) && NoQuote(name)
    && '=' !in name && '(' !in name && ')' !in name && '.' !in name
    && OnOneLine(m) && NoQuote(m) && '=' !in m && '.' !in m
    && AllWord(w1) && AllWord(w2) && w1 != w2
    && |args| == 3 && forall i :: 0 <= i < 3 ==> '.' !in args[i] && '=' !in args[i]
  }

  /** The example's text: a declaration, then calls of `w1`, `w2` and `w1` again. */
  function ExampleLines(name: string, m: string, w1: string, w2: string, args: seq<string>): seq<string>
    requires |args| == 3
  {
    ["const" + DeclarationText(name, '\'', m), CallOf(name, w1) + args[0], CallOf(name, w2) + args[1], CallOf(name, w1) + args[2]]
  }

  lemma ExampleJoin(lines: seq<string>)
    requires |lines| == 4
    ensures Join(lines, "\n") == lines[0] + "\n" + (lines[1] + "\n" + (lines[2] + "\n" + lines[3]))
  {
    var t1, t2, t3 := lines[1..], lines[1..][1..], lines[1..][1..][1..];
    assert t3 == [lines[3]] && Join(t3, "\n") == lines[3];
    assert t2 == [lines[2], lines[3]] && Join(t2, "\n") == lines[2] + "\n" + lines[3];
    assert t1 == [lines[1], lines[2], lines[3]];
  }

  lemma CallLineNoEquals(name: string, w: string, arg: string)
    requires '=' !in name && AllWord(w) && '=' !in arg
    ensures '=' !in CallOf(name, w) + arg
  {
    assert '=' !in w by {
      assert forall i :: 0 <= i < |w| ==> IsWordChar(w[i]);
    }
  }

  lemma ExampleRestNoEquals(name: string, m: string, w1: string, w2: string, args: seq<string>)
    requires Plain(name, m, w1, w2, args)
    ensures var lines := ExampleLines(name, m, w1, w2, args);
      '=' !in lines[1] + "\n" + (lines[2] + "\n" + lines[3])
  {
    CallLineNoEquals(name, w1, args[0]);
    CallLineNoEquals(name, w2, args[1]);
    CallLineNoEquals(name, w1, args[2]);
  }

  lemma ExampleDeclarations(name: string, m: string, w1: string, w2: string, args: seq<string>)
    requires Plain(name, m, w1, w2, args)
    ensures var lines := ExampleLines(name, m, w1, w2, args);
      var d := DeclarationText(name, '\'', m);
      && Declarations(Join(lines, "\n")) == [StripRequire(d)]
      && BindingName(StripRequire(d)) == name
      && ModuleName(StripRequire(d)) == Trim(m)
  {
    var lines := ExampleLines(name, m, w1, w2, args);
    var rest := lines[1] + "\n" + (lines[2] + "\n" + lines[3]);
    ExampleJoin(lines);
    SingleQuotedDeclaration("const", name, m);
    ExampleRestNoEquals(name, m, w1, w2, args);
    NoDeclarationsWithoutEquals(rest, "");
    FindDeclarationsLines(lines[0], '\n', rest);
    OneDeclaration(Join(lines, "\n"), DeclarationText(name, '\'', m));
  }

  lemma ExampleSites(name: string, m: string, w1: string, w2: string, args: seq<string>)
    requires Plain(name, m, w1, w2, args)
    ensures CallSites(Join(ExampleLines(name, m, w1, w2, args), "\n"), name)
         == [CallOf(name, w1), CallOf(name, w2), CallOf(name, w1)]
  {
    var lines := ExampleLines(name, m, w1, w2, args);
    ExampleJoin(lines);
    assert '.' !in lines[0] by {
      assert '.' !in RequireOpen;
    }
    NoCallSitesWithoutDot(lines[0], name);
    OneCall(name, w1, args[0]);
    OneCall(name, w2, args[1]);
    OneCall(name, w1, args[2]);
    CallSitesLines(lines[2], name, '\n', lines[3]);
    CallSitesLines(lines[1], name, '\n', lines[2] + "\n" + lines[3]);
    CallSitesLines(lines[0], name, '\n', lines[1] + "\n" + (lines[2] + "\n" + lines[3]));
  }

  lemma ExampleMembers(name: string, w1: string, w2: string)
    requires '(' !in name && '.' !in name && AllWord(w1) && AllWord(w2) && w1 != w2
    ensures var sites := [CallOf(name, w1), CallOf(name, w2), CallOf(name, w1)];
      (forall l :: l in Uniq(sites) ==> HasMember(l)) && Members(Uniq(sites)) == [w1, w2]
  {
    var a, b := CallOf(name, w1), CallOf(name, w2);
    CallMember(name, w1);
    CallMember(name, w2);
    assert a != b;
    var sites := [a, b, a];
    assert sites[..2] == [a, b] && [a, b][..1] == [a];
    assert Uniq([a]) == [a];
    assert Uniq([a, b]) == [a, b];
    assert Uniq(sites) == [a, b];
  }

  /** One declaration and three calls through its binding, two of them to the
      same member, give one stub that lists each member once, in order of
      first call. */
  lemma DeclaredAndCalled(name: string, m: string, w1: string, w2: string, args: seq<string>)
    requires Plain(name, m, w1, w2, args)
    ensures RequiredModules(Join(ExampleLines(name, m, w1, w2, args), "\n"), "")
         == Ok([StubSpec(Trim(m), [w1, w2], name + "Stub")])
  {
    assert !Excluded(name, [""]);
    var text := Join(ExampleLines(name, m, w1, w2, args), "\n");
    var v := StripRequire(DeclarationText(name, '\'', m));
    ExampleDeclarations(name, m, w1, w2, args);
    ExampleSites(name, m, w1, w2, args);
    ExampleMembers(name, w1, w2);
    assert UsedFunctions(text, name) == [w1, w2];
    assert Split("", ' ') == [""];
    StubsOne(text, [""], v);
    assert FindDeclarations(text) != [];
  }

  lemma FooTrimmed()
    ensures Trim("foo") == "foo"
  {
    TrimUnpadded("foo");
  }

  lemma BarLibTrimmed()
    ensures Trim("bar-lib") == "bar-lib"
  {
    TrimUnpadded("bar-lib");
  }

  lemma FooBarLibPlain()
    ensures Plain("foo", "bar-lib", "baz", "qux", ["1);", "2);", "3);"])
  {
    FooTrimmed();
    assert "baz"[0] != "qux"[0];
  }

  lemma FooBarLibLines()
    ensures ExampleLines("foo", "bar-lib", "baz", "qux", ["1);", "2);", "3);"])
         == ["const foo = require('bar-lib');", "foo.baz(1);", "foo.qux(2);", "foo.baz(3);"]
  {
    FooBarLibDeclarationLine();
    assert CallOf("foo", "baz") + "1);" == "foo.baz(1);";
    assert CallOf("foo", "qux") + "2);" == "foo.qux(2);";
    assert CallOf("foo", "baz") + "3);" == "foo.baz(3);";
  }

  lemma FooBarLibDeclarationLine()
    ensures "const" + DeclarationText("foo", '\'', "bar-lib") == "const foo = require('bar-lib');"
  {
    BarLibRequireTail();
    assert " " + "foo" == " foo";
    FooDeclaration();
    FooConst();
  }

  lemma FooDeclaration()
    ensures " foo" + " = require('bar-lib');" == " foo = require('bar-lib');"
  {
  }

  lemma FooConst()
    ensures "const" + " foo = require('bar-lib');" == "const foo = require('bar-lib');"
  {
  }

  lemma BarLibRequireTail()
    ensures RequireTail('\'', "bar-lib") == " = require('bar-lib');"
  {
    assert RequireOpen + ['\''] == " = require('";
    assert " = require('" + "bar-lib" == " = require('bar-lib";
    assert " = require('bar-lib" + ['\''] == " = require('bar-lib'";
    assert " = require('bar-lib'" + ");" == " = require('bar-lib');";
  }

  /** `const foo = require('bar-lib');` followed by the calls `foo.baz(1);`,
      `foo.qux(2);` and `foo.baz(3);` gives one stub for `bar-lib` that lists
      `baz` and `qux`. */
  lemma FooBarLibExample()
    ensures RequiredModules(Join(["const foo = require('bar-lib');", "foo.baz(1);", "foo.qux(2);", "foo.baz(3);"], "\n"), "")
         == Ok([StubSpec("bar-lib", ["baz", "qux"], "fooStub")])
  {
    FooBarLibPlain();
    FooBarLibLines();
    DeclaredAndCalled("foo", "bar-lib", "baz", "qux", ["1);", "2);", "3);"]);
    BarLibTrimmed();
    FooStub();
  }

  lemma FooStub()
    ensures "foo" + "Stub" == "fooStub"
  {
  }

  lemma LoggerParts()
    ensures NoQuote("const") && NoQuote("logger") && NoQuote("__filename")
  {
  }

  lemma LoggerModule()
    ensures NoQuote("@cermati/cermati-utils/logger") && ')' !in "@cermati/cermati-utils/logger"
  {
  }

  /** The logger line of the HTTP controller, `const logger = require('…/logger')(__filename);`,
      calls the required value at once, so the declaration pattern passes over it. */
  lemma LoggerLineIgnored()
    ensures FindDeclarations("const logger" + RequireOpen + InvokedTail("@cermati/cermati-utils/logger", "__filename")) == []
  {
    LoggerParts();
    LoggerModule();
    InvokedRequireIgnored("const", "logger", "@cermati/cermati-utils/logger", "__filename");
    assert "const" + " " + "logger" == "const logger";
  }
}
