# Test-skeleton generator helpers, modelled in Dafny

The generator scaffolds a unit-test file for a JavaScript source file. Two
helpers hold its logic, and this project models both.

- **The dependency inspector** is `getRequiredModules` in
  `generators/app/helpers/inspector.js`. It scans a module's text for
  `<sep>name = require('m');` declarations. It strips the `require('` and
  `');` wrappers, splits each match into a binding name and a module id, and
  drops bindings that are excluded or contain a parenthesis. For each binding
  that remains, it collects the distinct members called as `name.member(`,
  in order of first call. It then folds the survivors into stub records
  `{ module, usedFunctions, name: name + "Stub" }`.
- **The path resolver** is `generators/app/helpers/resolver.js`.
  - `generateTestFilePath` mirrors a source path under the test directory and
    names the file `<base>.<suffix>.<ext>`.
  - `getFullpath` joins the working directory with a path, with or without a
    leading `./`.
  - `generateSourcePathInTest(from, to)` gives the path from the directory of
    `from` to `to`, without `to`'s extension. The generator calls it with the
    generated test file as `from` and the source under test as `to`
    (`generators/app/index.js:56`), so the result is the path a test uses to
    reach its source.

The model has four modules and two modules of worked examples:

- `JsText` (`jstext.dfy`): the JavaScript string operations the helpers use:
  `split`, `join`, `trim`, `indexOf` and `replace` with a string pattern.
  `split` and `join` come with their round-trip lemmas, `trim` with its
  padding lemmas, and `indexOf` and `replace` with first-occurrence lemmas.
- `Inspector` (`inspector.dfy`): the inspector.
  - The two regular expressions are written out as scanners over the remaining
    text. They stop lazily, as the source's `*?` groups do, and never cross a
    line terminator.
  - The extraction steps are functions. The reducer is the function `Stubs`.
  - `GetRequiredModules` is a method whose loop pushes onto the accumulator, as
    the `_.reduce` callback does. It is proved equal to the functional
    specification.
- `PosixPath` (`posixpath.dfy`): the POSIX behaviour of Node's `path` module
  that the resolver relies on.
  - `normalize`/`join` use the segment stack of Node's `normalizeString`.
  - `dirname` follows Node's backwards scan.
  - Also covered: `basename` of the last segment, `extname`, `resolve`
    against a working directory, and `relative` on resolved segments.
- `Resolver` (`resolver.dfy`): the three resolver functions and their
  properties.
- `InspectorExample` and `ResolverExample`: worked cases, proved for all
  inputs of their shape and then for literal texts. The inspector case is one
  declaration of `bar-lib` bound to `foo`, followed by three calls through
  `foo`. The resolver case is the nested source `src/a/b.js`.

Behaviour kept exactly as the code has it:

- A declaration match starts at the first space or period on its line.
- Only single-quoted `require('…')` wrappers are stripped. For a double-quoted
  declaration, the module id keeps the text `require("m");`
  (`DoubleQuotedKeepsWrapper`).
- A binding is rejected only for `(` or `)`. A destructuring binding such as
  `{ HttpError }` passes that filter and is dropped only because nothing calls
  it.
- The module id is the tail of the `=` split, joined with `,` and trimmed,
  which is what lodash's `trim` does to an array.
- `generateTestFilePath` on a source without an extension yields a name that
  ends in `.`.
- `getFullpath` of a path that starts with `/` still joins it under the
  working directory, because it is first prefixed with `./`.

A text with no declaration match makes `getRequiredModules` throw: `.match`
returns `null` and `.map` is then called on it. The model returns
`Err(NoRequireDeclaration)` in that case, and only then.

## Model

| member | source | states |
|---|---|---|
| Inspector.GetRequiredModules | generators/app/helpers/inspector.js:6-65 | the loop pushing stub records equals the functional reduction `RequiredModules`; the result is an error exactly when the text has no declaration match |
| Inspector.CloseLength | generators/app/helpers/inspector.js:4 | a match of the module group ends in a quote followed by `);` |
| Inspector.CloseLengthFirst | generators/app/helpers/inspector.js:4 | the lazy module group stops at the first quote followed by `);`; when there is none on the line, every such close lies past a line break |
| Inspector.BindingLengthMatch | generators/app/helpers/inspector.js:4 | a match of binding, ` = require(`, quote, module and close ends in a quote and `);` and stays on one line |
| Inspector.RequireLengthMatch | generators/app/helpers/inspector.js:4 | a match of ` = require(`, quote, module and close ends in a quote and `);` and stays on one line |
| Inspector.DeclarationLength | generators/app/helpers/inspector.js:4 | a declaration match starts with a space or a period and is at least 16 characters long |
| Inspector.DeclarationLengthMatch | generators/app/helpers/inspector.js:4 | a declaration match ends in a quote and `);` and stays on one line |
| Inspector.FindDeclarations | generators/app/helpers/inspector.js:10-11 | every element of the global match list starts with a space or a period, stays on one line and ends in a quote followed by `);` |
| Inspector.FindDeclarationsExact | generators/app/helpers/inspector.js:4-11 | every element of the global match list is, on its own, exactly one match of the whole declaration pattern: separator, lazy binding, ` = require(`, quote, lazy module, quote and `);` |
| Inspector.CloseLengthCut | generators/app/helpers/inspector.js:4 | the lazy module group sees only the text up to its close: cutting the text past the close keeps the match, and a match in a prefix is the match in the whole text |
| Inspector.FindDeclarationsLines | generators/app/helpers/inspector.js:4 | the matches of two lines joined by a line terminator are the first line's matches followed by the second's |
| Inspector.SkipLead | generators/app/helpers/inspector.js:4 | text before the first space or period is never part of a match |
| Inspector.DeclarationMatched | generators/app/helpers/inspector.js:4 | a single line `<lead> name = require(q m q);` is matched exactly once, from the space before the name |
| Inspector.NoDeclarationsWithoutEquals | generators/app/helpers/inspector.js:10-12 | a text without `=` has no match, and the inspector then fails with `NoRequireDeclaration` |
| Inspector.NoDeclarationsWithoutClose | generators/app/helpers/inspector.js:4 | a text with no quote followed by `);` has no match |
| Inspector.InvokedRequireIgnored | generators/app/helpers/inspector.js:4 | a `require('m')(arg);` line that calls the required value at once is not a declaration |
| Inspector.Declarations | generators/app/helpers/inspector.js:10-14 | there is one stripped value per declaration match |
| Inspector.StripSingleQuoted | generators/app/helpers/inspector.js:12-14 | stripping a single-quoted declaration leaves ` name = m` |
| Inspector.StripDoubleQuoted | generators/app/helpers/inspector.js:12-22 | for a double-quoted declaration, the wrappers are not stripped and the module id is `require("m");` |
| Inspector.SplitStripped | generators/app/helpers/inspector.js:17-22 | for ` name = rest`, the binding name is the trimmed name and the module id is the trimmed rest |
| Inspector.SingleQuotedDeclaration | generators/app/helpers/inspector.js:4-32 | a single-quoted declaration is matched once, and yields the trimmed binding name and exactly the trimmed module `m` |
| Inspector.DoubleQuotedKeepsWrapper | generators/app/helpers/inspector.js:4-32 | a double-quoted declaration is matched once; its binding name is trimmed, but its module id keeps the `require("…");` wrapper |
| Inspector.CallLengthMatch | generators/app/helpers/inspector.js:35 | a call-site match is `name.`, then a run of letters, digits and underscores, then `(` |
| Inspector.CallLengthOf | generators/app/helpers/inspector.js:35 | whenever `name.w(` starts the text, with `w` a word, the call-site pattern matches exactly that text |
| Inspector.CallSites | generators/app/helpers/inspector.js:34-35 | every element of the global call-site match list is a call of the binding |
| Inspector.CallSitesComplete | generators/app/helpers/inspector.js:34-35 | every occurrence of `name.w(` in the text appears in the call-site match list |
| Inspector.CallSitesOccur | generators/app/helpers/inspector.js:34-35 | every element of the call-site match list occurs in the text |
| Inspector.CallsDoNotOverlap | generators/app/helpers/inspector.js:35 | no call-site match starts inside another one |
| Inspector.CallSitesLines | generators/app/helpers/inspector.js:35 | the call sites of two lines joined by a line terminator are those of the first line followed by those of the second |
| Inspector.NoCallSitesWithoutDot | generators/app/helpers/inspector.js:35 | a text without a period has no call site |
| Inspector.Uniq | generators/app/helpers/inspector.js:41 | de-duplication keeps exactly the same elements, each once |
| Inspector.UniqFirstOrder | generators/app/helpers/inspector.js:41 | de-duplication keeps first-occurrence order |
| Inspector.CallMember | generators/app/helpers/inspector.js:42-48 | the member extracted from `name.w(` is `w` |
| Inspector.SiteMember | generators/app/helpers/inspector.js:42-48 | every call site is `name.`, its member and `(`, and its member is a word |
| Inspector.UsedFunctionsExact | generators/app/helpers/inspector.js:34-50 | `usedFunctions` holds exactly the members `w` for which `name.w(` occurs in the text, each once |
| Inspector.UsedFunctionsFirstSeenOrder | generators/app/helpers/inspector.js:40-49 | a member listed before another is called before the other's calls |
| Inspector.StubFor | generators/app/helpers/inspector.js:17-63 | an excluded binding gives no record; a record names the binding with `Stub` appended, carries the module id, and lists a non-empty `usedFunctions` |
| Inspector.UncalledDropped | generators/app/helpers/inspector.js:52-55 | a binding that is never called gives no record |
| Inspector.CalledStub | generators/app/helpers/inspector.js:34-61 | a kept binding that is called gives its record, and the called member is in it |
| Inspector.KeptHas | generators/app/helpers/inspector.js:57-61 | every produced record is in the result |
| Inspector.KeptFrom | generators/app/helpers/inspector.js:16-64 | every record in the result was produced by some declaration |
| Inspector.StubsAppend | generators/app/helpers/inspector.js:16-64 | the records of two runs of declarations are those of the first followed by those of the second, so output order is declaration order |
| Inspector.RequiredModulesSound | generators/app/helpers/inspector.js:16-64 | each output record comes from a declaration in the text that is not excluded and is called |
| Inspector.RequiredModulesComplete | generators/app/helpers/inspector.js:16-64 | each declaration that is not excluded and is called has its record in the output |
| Inspector.ExcludedNeverStubbed | generators/app/helpers/inspector.js:24-27 | a name with a parenthesis, or listed in the space-separated exclusions, never has a record in the output |
| InspectorExample.DeclaredAndCalled | generators/app/helpers/inspector.js:6-65 | one declaration and calls `w1`, `w2`, `w1` give one record listing `[w1, w2]` |
| InspectorExample.FooBarLibExample | generators/app/helpers/inspector.js:6-65 | `const foo = require('bar-lib');` with calls `foo.baz`, `foo.qux`, `foo.baz` gives `{bar-lib, [baz, qux], fooStub}` |
| InspectorExample.LoggerLineIgnored | src/modules/http/index.js:6 | the controller's logger line, which calls the required value at once, is not a declaration |
| JsText.Split | generators/app/helpers/inspector.js:17 | there is at least one piece and no piece contains the separator |
| JsText.JoinSplit | generators/app/helpers/inspector.js:17 | joining the pieces with the separator gives the input back |
| JsText.SplitJoin | generators/app/helpers/inspector.js:17 | splitting a join of separator-free pieces gives the pieces back |
| JsText.Trim | generators/app/helpers/inspector.js:19-22 | the result neither starts nor ends with white space, and a string that neither starts nor ends with white space is left as it is |
| JsText.TrimPadded | generators/app/helpers/inspector.js:19-22 | trimming ignores white-space padding on both sides |
| JsText.IndexOf | generators/app/helpers/inspector.js:13-14 | the result is the first occurrence of the pattern, or -1 when there is none |
| PosixPath.Fold | generators/app/helpers/resolver.js:14 | folding segments keeps the stack free of empty, `.` and slash-holding segments |
| PosixPath.NormalizeWalk | generators/app/helpers/resolver.js:14 | normalising a path does not change where it leads |
| PosixPath.NormalizeResolves | generators/app/helpers/resolver.js:14 | a path and its normal form resolve to the same location |
| PosixPath.ResolveAppend | generators/app/helpers/resolver.js:33 | resolving `a/b` is walking `b` from where `a` resolves |
| PosixPath.RelativeWalk | generators/app/helpers/resolver.js:29 | walking the relative path from `from` reaches `to` |
| PosixPath.RelativeSame | generators/app/helpers/resolver.js:29 | the relative path between two spellings of one location is empty |
| PosixPath.RelativeNotAbsolute | generators/app/helpers/resolver.js:29 | a relative path never starts with `/` |
| PosixPath.Extname | generators/app/helpers/resolver.js:4 | the extension is empty or a dot-led suffix of the base name, with no other dot, shorter than the base name; it is non-empty exactly when the base name's last `.` is not its first character and the base name is not `..` |
| PosixPath.BasenameWithoutExt | generators/app/helpers/resolver.js:5 | the base name without extension, followed by the extension, is the base name |
| PosixPath.PathJoinName | generators/app/helpers/resolver.js:14 | joining a name last makes it the base name, under the join of the other parts |
| Resolver.TestFilenameShape | generators/app/helpers/resolver.js:4-10 | the test file name is the base, `.`, the suffix, then the extension, or a trailing `.` when there is none |
| Resolver.TestFilenameExtension | generators/app/helpers/resolver.js:4-10 | the test file keeps the source's extension, and its base is the source base followed by `.suffix` |
| Resolver.TestFileMirrorsSource | generators/app/helpers/resolver.js:3-15 | the test file's base name is the generated name, in the directory `join(testDirectory, dirname(src))` |
| Resolver.GetFullpathDotSlash | generators/app/helpers/resolver.js:17-23 | a leading `./` does not change the result |
| Resolver.GetFullpathIsJoin | generators/app/helpers/resolver.js:17-23 | the result is the normalised join of the working directory and the path |
| Resolver.GetFullpathResolves | generators/app/helpers/resolver.js:17-23 | the result is absolute and locates the path under the working directory, or the path itself when it is relative |
| Resolver.SourcePathEndsInBase | generators/app/helpers/resolver.js:25-34 | the result's base name is the target's base name without its extension, and it is never absolute |
| Resolver.SourcePathRoundTrip | generators/app/helpers/resolver.js:25-34 | walking the result from the directory of `from` (the test file) reaches the directory of `to` (the source file), then `to`'s extension-less base name |
| Resolver.SourcePathSameDirectory | generators/app/helpers/resolver.js:28-33 | when both files share a directory, the result is the bare extension-less base name |
| ResolverExample.NestedSource | generators/app/helpers/resolver.js:3-15 | `d1/…/dn/stem.x` under `t1/…/tm` gets `t1/…/tm/d1/…/dn/stem.suffix.x` |
| ResolverExample.NestedSrcExample | generators/app/helpers/resolver.js:3-15 | with the default directory and suffix, `src/a/b.js` gets `tests/src/a/b.spec.js` |

## Left out

- Reading the inspected file and asking for the working directory are not modelled. The file's text and `cwd` are parameters instead.
- The call-site pattern interpolates the binding name without escaping it. The model matches the name literally, so a name containing regular-expression metacharacters other than parentheses is not modelled as the regex engine would treat it.
- Inspector.GetRequiredModules: returns `Err(NoRequireDeclaration)` where the code throws a `TypeError`. The exception itself is not modelled.
- The record's `module` field is named `moduleId`, because `module` is a Dafny keyword.
- Windows path semantics are not modelled, and neither is `path.basename` with an arbitrary suffix argument. Only `basename(p, extname(p))`, the call the resolver makes, is modelled.
- Resolver.GenerateSourcePathInTest: requires `cwd` to be absolute. `process.cwd()` always is.
- Resolver.SourcePathEndsInBase, Resolver.SourcePathRoundTrip, Resolver.SourcePathSameDirectory: require the target's extension-less base name to be a plain name, that is not empty, `.` or `..`.
- Resolver.SourcePathRoundTrip: states the round trip on resolved locations, not as equal strings. The source and target may be spelled differently, for example one absolute and one relative.
- Resolver.TestFileMirrorsSource: requires a non-empty source base name and a suffix without `/`.
- The controller's full text (src/modules/http/index.js) is not worked through as one input. Its `abTesting` and `commonHelpers` bindings, each called once, fall under the general Inspector.RequiredModulesComplete and Inspector.UsedFunctionsExact.
- Inspector.CloseLength: its own contract says only that a match ends in a quote followed by `);`. That the match stays on one line and stops at the first such close is stated by Inspector.CloseLengthFirst, to keep the recursive function cheap to unfold.
- The Yeoman prompting, the template rendering and the controller's business logic are not part of this model.
