/** The dependency inspector of the generator (generators/app/helpers/inspector.js):
    it finds the `<sep>name = require('module');` declarations of a JavaScript
    source text, looks for the `name.member(` call sites of every binding, and
    describes one stub per dependency that is actually called.

    The two regular expressions of `getRequiredModules` are hand-coded as functions on
    the remaining text: each `...Length` function gives the length of the match
    the regular expression engine settles on at the start of its argument, and
    the `Find...`/`...Sites` functions repeat it the way a global `match` does,
    resuming after each match. */
module Inspector {
  import opened JsText

  datatype Option<T> = None | Some(value: T)

  datatype Result<T, E> = Ok(value: T) | Err(error: E)

  /** `getRequiredModules` throws when the declaration pattern matches nothing:
      `match` returns null and `.map` is then called on it. */
  datatype InspectError = NoRequireDeclaration

  /** The record the test template consumes for one mocked dependency. */
  datatype StubSpec = StubSpec(moduleId: string, usedFunctions: seq<string>, name: string)

  // ---------------------------------------------------------------------------
  // The declaration pattern: a space or a period, a lazily matched binding,
  // ` = require(`, a quote, a lazily matched module, a quote, `);`
  // ---------------------------------------------------------------------------

  const RequireOpen: string := " = require("

  predicate IsQuote(c: char) { c == '\'' || c == '"' }

  predicate IsSeparator(c: char) { c == ' ' || c == '.' }

  predicate OnOneLine(s: string) {
    forall i :: 0 <= i < |s| ==> !IsLineTerminator(s[i])
  }

  /** A quote followed by `);` at position `j`. */
  predicate IsClose(s: string, j: int) {
    0 <= j && j + 3 <= |s| && IsQuote(s[j]) && s[j + 1] == ')' && s[j + 2] == ';'
  }

  /** A lazy group, a quote and `);` at the start of `s`: the group stops at the first
      quote followed by `);`, and may not cross a line terminator. */
  function CloseLength(s: string): (n: Option<nat>)
    ensures n.Some? ==> 3 <= n.value <= |s| && IsClose(s, n.value - 3)
    decreases |s|
  {
    if IsClose(s, 0) then Some(3)
    else if s != [] && !IsLineTerminator(s[0]) then
      match CloseLength(s[1..])
      case Some(k) => Some(k + 1)
      case None => None
    else None
  }

  /** What the module group matches: text on one line up to a quote and `);`.
      The group is lazy: the close it stops at is the first one, and when it
      finds none, every close lies past a line terminator. */
  lemma {:induction false} CloseLengthFirst(s: string)
    ensures CloseLength(s).Some? ==> IsClose(s, CloseLength(s).value - 3) && OnOneLine(s[..CloseLength(s).value])
    ensures CloseLength(s).Some? ==> forall j :: 0 <= j < CloseLength(s).value - 3 ==> !IsClose(s, j)
    ensures CloseLength(s).None? ==> forall j :: IsClose(s, j) ==> !OnOneLine(s[..j])
    decreases |s|
  {
    if IsClose(s, 0) {
      assert forall i :: 0 <= i < 3 ==> s[..3][i] == s[i];
    } else if s != [] && !IsLineTerminator(s[0]) {
      CloseLengthFirst(s[1..]);
      assert forall j :: 1 <= j ==> IsClose(s, j) == IsClose(s[1..], j - 1);
      assert forall j :: 1 <= j <= |s| ==> s[..j] == [s[0]] + s[1..][..j - 1];
    } else {
      assert forall j :: 1 <= j <= |s| ==> s[..j][0] == s[0];
    }
  }

  /** ` = require(`, a quote and the closing part, at the very start of `s`. */
  function RequireLength(s: string): (n: Option<nat>)
    ensures n.Some? ==> 15 <= n.value <= |s|
  {
    if IsPrefix(RequireOpen, s) && |s| > 12 && IsQuote(s[11]) && CloseLength(s[12..]).Some? then
      Some(12 + CloseLength(s[12..]).value)
    else None
  }

  lemma RequireLengthMatch(s: string)
    ensures RequireLength(s).Some? ==> IsClose(s, RequireLength(s).value - 3) && OnOneLine(s[..RequireLength(s).value])
  {
    if RequireLength(s).Some? {
      var k := CloseLength(s[12..]).value;
      CloseLengthFirst(s[12..]);
      assert s[..12 + k] == s[..12] + s[12..][..k];
      assert forall i :: 0 <= i < 11 ==> s[i] == RequireOpen[i];
    }
  }

  /** The binding, then ` = require(`, a quote and the closing part, at the start of `s`:
      the lazy binding group grows one character at a time until the rest of
      the pattern matches. */
  function BindingLength(s: string): (n: Option<nat>)
    ensures n.Some? ==> 15 <= n.value <= |s|
    decreases |s|
  {
    if RequireLength(s).Some? then RequireLength(s)
    else if s != [] && !IsLineTerminator(s[0]) then
      match BindingLength(s[1..])
      case Some(k) => Some(k + 1)
      case None => None
    else None
  }

  lemma {:induction false} BindingLengthMatch(s: string)
    ensures BindingLength(s).Some? ==> IsClose(s, BindingLength(s).value - 3) && OnOneLine(s[..BindingLength(s).value])
    decreases |s|
  {
    RequireLengthMatch(s);
    if RequireLength(s).None? && s != [] && !IsLineTerminator(s[0]) && BindingLength(s[1..]).Some? {
      var k := BindingLength(s[1..]).value;
      BindingLengthMatch(s[1..]);
      assert s[..k + 1] == [s[0]] + s[1..][..k];
    }
  }

  /** The whole declaration pattern at the start of `s`: a space or a period, then the rest. */
  function DeclarationLength(s: string): (n: Option<nat>)
    ensures n.Some? ==> 16 <= n.value <= |s| && IsSeparator(s[0])
  {
    if s != [] && IsSeparator(s[0]) then
      match BindingLength(s[1..])
      case Some(k) => Some(k + 1)
      case None => None
    else None
  }

  lemma DeclarationLengthMatch(s: string)
    ensures DeclarationLength(s).Some? ==> IsClose(s, DeclarationLength(s).value - 3) && OnOneLine(s[..DeclarationLength(s).value])
  {
    if DeclarationLength(s).Some? {
      var k := BindingLength(s[1..]).value;
      BindingLengthMatch(s[1..]);
      assert s[..k + 1] == [s[0]] + s[1..][..k];
    }
  }

  /** A match of the declaration pattern: it starts with a separator, stays on
      one line and ends with a quote and `);`. */
  predicate IsDeclarationMatch(d: string) {
    |d| >= 16 && IsSeparator(d[0]) && OnOneLine(d) && IsClose(d, |d| - 3)
  }

  /** `text.match(MODULE_REQUIRE_REGEX)`, with the empty sequence for `null`:
      every match, left to right, each search resuming where the last match ended. */
  function FindDeclarations(text: string): (ds: seq<string>)
    ensures forall i :: 0 <= i < |ds| ==> IsDeclarationMatch(ds[i])
    decreases |text|
  {
    if text == [] then []
    else
      match DeclarationLength(text)
      case Some(n) =>
        DeclarationLengthMatch(text);
        assert IsClose(text[..n], n - 3);
        [text[..n]] + FindDeclarations(text[n..])
      case None => FindDeclarations(text[1..])
  }

  // ---------------------------------------------------------------------------
  // The call-site pattern: the binding name, a period, a lazily matched run of
  // letters, digits and underscores, an opening parenthesis
  // ---------------------------------------------------------------------------

  predicate IsWordChar(c: char) {
    ('A' <= c <= 'Z') || ('a' <= c <= 'z') || ('0' <= c <= '9') || c == '_'
  }

  predicate AllWord(s: string) {
    forall i :: 0 <= i < |s| ==> IsWordChar(s[i])
  }

  /** The text `name.member(` of one call site. */
  function CallOf(name: string, member: string): string {
    name + "." + member + "("
  }

  /** The run of word characters at the start of `s`. */
  function WordRunLength(s: string): (n: nat)
    ensures n <= |s| && AllWord(s[..n]) && (n == |s| || !IsWordChar(s[n]))
  {
    if s != [] && IsWordChar(s[0]) then
      var k := WordRunLength(s[1..]);
      assert s[..k + 1] == [s[0]] + s[1..][..k];
      k + 1
    else 0
  }

  /** The call-site pattern at the start of `s`, the binding name taken
      literally: `name`, a period, the word characters up to the first
      non-word character, which must be `(`. */
  function CallLength(s: string, name: string): (n: Option<nat>)
    ensures n.Some? ==> |name| + 2 <= n.value <= |s|
  {
    if IsPrefix(name + ".", s) then
      var k := |name| + 1 + WordRunLength(s[|name| + 1..]);
      if k < |s| && s[k] == '(' then Some(k + 1) else None
    else None
  }

  /** A match of the call-site pattern is `name.w(` for a run `w` of word characters. */
  lemma CallLengthMatch(s: string, name: string)
    ensures CallLength(s, name).Some? ==>
      var n := CallLength(s, name).value; var w := s[|name| + 1..n - 1];
      AllWord(w) && s[..n] == CallOf(name, w)
  {
    if CallLength(s, name).Some? {
      var run := WordRunLength(s[|name| + 1..]);
      var k := |name| + 1 + run;
      assert s[|name| + 1..k] == s[|name| + 1..][..run];
      assert s[..k + 1] == s[..|name| + 1] + s[|name| + 1..k] + "(";
    }
  }

  /** A call-site text: `name.member(` with a member made of word characters. */
  predicate IsCallSite(line: string, name: string) {
    |line| >= |name| + 2 && AllWord(line[|name| + 1..|line| - 1])
    && line == CallOf(name, line[|name| + 1..|line| - 1])
  }

  /** `moduleContent.match(<call-site pattern>)`, with the empty sequence for `null`. */
  function CallSites(text: string, name: string): (sites: seq<string>)
    ensures forall i :: 0 <= i < |sites| ==> IsCallSite(sites[i], name)
    decreases |text|
  {
    if text == [] then []
    else
      match CallLength(text, name)
      case Some(n) =>
        CallLengthMatch(text, name);
        [text[..n]] + CallSites(text[n..], name)
      case None => CallSites(text[1..], name)
  }

  /** `name.member(` occurs in `text` at position `p`. */
  predicate CallsAt(text: string, name: string, member: string, p: int) {
    AllWord(member) && OccursAt(text, CallOf(name, member), p)
  }

  // ---------------------------------------------------------------------------
  // Turning matches into stub descriptions
  // ---------------------------------------------------------------------------

  /** `line.replace('require(\'', '').replace('\');', '')`: only single-quoted
      wrappers are removed, and only their first occurrence. */
  function StripRequire(line: string): string {
    ReplaceFirst(ReplaceFirst(line, "require('", ""), "');", "")
  }

  /** The declaration strings the reducer receives: every match, stripped. */
  function Declarations(text: string): (values: seq<string>)
    ensures |values| == |FindDeclarations(text)|
  {
    var matches := FindDeclarations(text);
    seq(|matches|, i requires 0 <= i < |matches| => StripRequire(matches[i]))
  }

  /** The trimmed text before the first `=`. */
  function BindingName(value: string): string {
    Trim(Split(value, '=')[0])
  }

  /** Everything after the first `=`: lodash's `_.trim` turns the array of the
      remaining pieces into a string by joining them with commas, then trims it. */
  function ModuleName(value: string): string {
    Trim(Join(Split(value, '=')[1..], ","))
  }

  predicate HasParen(name: string) { '(' in name || ')' in name }

  /** The bindings the reducer skips before looking for call sites. */
  predicate Excluded(name: string, excluded: seq<string>) {
    HasParen(name) || name in excluded
  }

  /** `_.uniqBy(xs)` without an iteratee: the first occurrence of each element, in order. */
  function Uniq(xs: seq<string>): (r: seq<string>)
    ensures forall x :: x in r <==> x in xs
    ensures forall i, j :: 0 <= i < j < |r| ==> r[i] != r[j]
  {
    if xs == [] then []
    else
      var r := Uniq(xs[..|xs| - 1]);
      assert forall x :: x in xs <==> x in xs[..|xs| - 1] || x == xs[|xs| - 1];
      if xs[|xs| - 1] in r then r else r + [xs[|xs| - 1]]
  }

  /** `_.chain(line).split('(').first().split('.').drop().first()`: the piece
      between the first and second period of the text before the first `(`. */
  function MemberOf(line: string): string
    requires HasMember(line)
  {
    Split(Split(line, '(')[0], '.')[1]
  }

  predicate HasMember(line: string) {
    |Split(Split(line, '(')[0], '.')| >= 2
  }

  function Members(lines: seq<string>): seq<string>
    requires forall i :: 0 <= i < |lines| ==> HasMember(lines[i])
  {
    seq(|lines|, i requires 0 <= i < |lines| => MemberOf(lines[i]))
  }

  /** The members called through `name`, without repetition, in order of first call. */
  function UsedFunctions(text: string, name: string): seq<string>
    requires '(' !in name
  {
    var lines := CallSites(text, name);
    if lines == [] then []
    else
      CallSitesHaveMembers(text, name);
      Members(Uniq(lines))
  }

  /** What the reducer does with one stripped declaration: skip it, or describe its stub. */
  function StubFor(text: string, excluded: seq<string>, value: string): (r: Option<StubSpec>)
    ensures Excluded(BindingName(value), excluded) ==> r.None?
    ensures r.Some? ==> r.value.name == BindingName(value) + "Stub" && r.value.moduleId == ModuleName(value)
    ensures r.Some? ==> r.value.usedFunctions != [] && r.value.usedFunctions == UsedFunctions(text, BindingName(value))
  {
    var name := BindingName(value);
    if HasParen(name) || name in excluded then None
    else
      var used := UsedFunctions(text, name);
      if used == [] then None else Some(StubSpec(ModuleName(value), used, name + "Stub"))
  }

  /** The stubs among a sequence of reducer outcomes, in order. */
  function Kept(outcomes: seq<Option<StubSpec>>): seq<StubSpec>
  {
    if outcomes == [] then []
    else
      Kept(outcomes[..|outcomes| - 1])
      + match outcomes[|outcomes| - 1] case Some(s) => [s] case None => []
  }

  lemma KeptStep(outcomes: seq<Option<StubSpec>>, i: int)
    requires 0 <= i < |outcomes|
    ensures Kept(outcomes[..i + 1])
         == Kept(outcomes[..i]) + match outcomes[i] case Some(s) => [s] case None => []
  {
    assert outcomes[..i + 1][..i] == outcomes[..i];
  }

  /** The outcome of each step, in order. */
  function MapOutcomes(step: string -> Option<StubSpec>, values: seq<string>): (outcomes: seq<Option<StubSpec>>)
    ensures |outcomes| == |values|
    ensures forall i :: 0 <= i < |values| ==> outcomes[i] == step(values[i])
  {
    seq(|values|, i requires 0 <= i < |values| => step(values[i]))
  }

  /** What the reducer does with each declaration. */
  function Outcomes(text: string, excluded: seq<string>, values: seq<string>): (outcomes: seq<Option<StubSpec>>)
    ensures |outcomes| == |values|
  {
    MapOutcomes(value => StubFor(text, excluded, value), values)
  }

  /** The reducer's accumulated result over a sequence of declarations. */
  function Stubs(text: string, excluded: seq<string>, values: seq<string>): seq<StubSpec>
  {
    Kept(Outcomes(text, excluded, values))
  }

  /** `getRequiredModules` with the file content passed in as `text`. */
  function RequiredModules(text: string, excludeDependencies: string): Result<seq<StubSpec>, InspectError>
  {
    if FindDeclarations(text) == [] then Err(NoRequireDeclaration)
    else Ok(Stubs(text, Split(excludeDependencies, ' '), Declarations(text)))
  }

  // ---------------------------------------------------------------------------
  // Lemmas about the call-site scan
  // ---------------------------------------------------------------------------

  lemma CallSitesHaveMembers(text: string, name: string)
    requires '(' !in name
    ensures forall l :: l in CallSites(text, name) ==> HasMember(l)
    ensures forall l :: l in Uniq(CallSites(text, name)) ==> HasMember(l)
  {
    forall l | l in CallSites(text, name) ensures HasMember(l) {
      var i :| 0 <= i < |CallSites(text, name)| && CallSites(text, name)[i] == l;
      CallMember(name, l[|name| + 1..|l| - 1]);
    }
  }

  /** The member read back from `name.w(` is `w`, when `name` has no period. */
  lemma CallMember(name: string, w: string)
    requires '(' !in name && AllWord(w)
    ensures HasMember(CallOf(name, w))
    ensures '.' !in name ==> MemberOf(CallOf(name, w)) == w
  {
    var head := name + "." + w;
    assert '(' !in head by {
      assert forall i :: 0 <= i < |head| ==> head[i] == (if i < |name| then name[i] else if i == |name| then '.' else w[i - |name| - 1]);
    }
    assert CallOf(name, w) == head + ['('] + "";
    SplitCons(head, "", '(');
    assert Split(CallOf(name, w), '(')[0] == head;
    assert '.' !in w by {
      assert forall i :: 0 <= i < |w| ==> IsWordChar(w[i]);
    }
    if '.' !in name {
      assert head == name + ['.'] + w;
      SplitCons(name, w, '.');
      SplitNoSep(w, '.');
    } else {
      var k :| 0 <= k < |name| && name[k] == '.';
      SplitHasTwo(head, k);
    }
  }

  lemma SplitHasTwo(s: string, k: int)
    requires 0 <= k < |s| && s[k] == '.'
    ensures |Split(s, '.')| >= 2
  {
    var parts := Split(s, '.');
    JoinSplit(s, '.');
    assert Join(parts, ".") == s;
  }

  /** Whenever `name.w(` starts `s`, the call-site pattern matches exactly that text. */
  lemma CallLengthOf(s: string, name: string, w: string)
    requires AllWord(w) && IsPrefix(CallOf(name, w), s)
    ensures CallLength(s, name) == Some(|CallOf(name, w)|)
  {
    var k := |name| + 1;
    var c := CallOf(name, w);
    assert s[..|c|] == c;
    assert s[..k] == c[..k] == name + ".";
    assert IsPrefix(name + ".", s);
    var rest := s[k..];
    assert rest[..|w|] == c[k..k + |w|] == w;
    assert rest[|w|] == c[k + |w|] == '(';
    WordRunExact(rest, |w|);
  }

  lemma {:induction false} WordRunExact(s: string, n: nat)
    requires n < |s| && AllWord(s[..n]) && !IsWordChar(s[n])
    ensures WordRunLength(s) == n
  {
    if n > 0 {
      assert IsWordChar(s[..n][0]);
      assert s[1..][..n - 1] == s[..n][1..];
      WordRunExact(s[1..], n - 1);
    }
  }

  /** Two call sites of the same binding never overlap: inside a match there is
      no other place where the pattern matches (the binding has no `(`). */
  lemma CallsDoNotOverlap(s: string, name: string, d: nat)
    requires '(' !in name
    requires CallLength(s, name).Some? && 0 < d < CallLength(s, name).value
    ensures CallLength(s[d..], name).None?
  {
    var n := CallLength(s, name).value;
    var w := s[|name| + 1..n - 1];
    var c := CallOf(name, w);
    CallLengthMatch(s, name);
    assert s[..n] == c;
    var t := s[d..];
    var q := d + |name|;
    if q < n - 1 {
      assert s[q] == c[q] == w[q - |name| - 1];
      assert t[|name|] == s[q] && IsWordChar(s[q]);
    } else if q == n - 1 {
      assert t[|name|] == s[q] == c[n - 1] == '(';
    } else if q < |s| {
      assert t[n - 1 - d] == s[n - 1] == c[n - 1] == '(';
      assert name[n - 1 - d] != '(';
      assert (name + ".")[n - 1 - d] == name[n - 1 - d];
    }
    assert !IsPrefix(name + ".", t);
  }

  lemma OccursAtShift(text: string, pat: string, p: int, d: int)
    requires 0 <= d <= p && d <= |text|
    ensures OccursAt(text, pat, p) == OccursAt(text[d..], pat, p - d)
  {
    if p + |pat| <= |text| {
      assert text[p..p + |pat|] == text[d..][p - d..p - d + |pat|];
    }
  }

  lemma OccursAtPrefix(text: string, pat: string, p: int, q: int)
    requires 0 <= q <= |text| && OccursAt(text[..q], pat, p)
    ensures OccursAt(text, pat, p) && p + |pat| <= q
  {
    assert text[..q][p..p + |pat|] == text[p..p + |pat|];
  }

  lemma OccursAtIsPrefix(text: string, pat: string, p: nat)
    requires p <= |text|
    ensures OccursAt(text, pat, p) == IsPrefix(pat, text[p..])
  {
    if p + |pat| <= |text| {
      assert text[p..p + |pat|] == text[p..][..|pat|];
    }
  }

  /** Every call `name.w(` in the text shows up among the call sites the scan returns. */
  lemma {:induction false} CallSitesComplete(text: string, name: string, w: string, p: nat)
    requires '(' !in name && CallsAt(text, name, w, p)
    ensures CallOf(name, w) in CallSites(text, name)
    decreases |text|
  {
    OccursAtIsPrefix(text, CallOf(name, w), p);
    if CallLength(text, name).Some? {
      var n := CallLength(text, name).value;
      if p == 0 {
        CallLengthOf(text, name, w);
        assert CallSites(text, name)[0] == text[..n] == CallOf(name, w);
      } else if p < n {
        CallLengthOf(text[p..], name, w);
        CallsDoNotOverlap(text, name, p);
      } else {
        OccursAtShift(text, CallOf(name, w), p, n);
        CallSitesComplete(text[n..], name, w, p - n);
      }
    } else {
      if p == 0 {
        assert text[0..] == text;
        CallLengthOf(text, name, w);
      } else {
        OccursAtShift(text, CallOf(name, w), p, 1);
        CallSitesComplete(text[1..], name, w, p - 1);
      }
    }
  }

  /** Every call site the scan returns occurs in the text. */
  lemma {:induction false} CallSitesOccur(text: string, name: string, i: nat)
    requires i < |CallSites(text, name)|
    ensures exists p :: OccursAt(text, CallSites(text, name)[i], p)
    decreases |text|
  {
    match CallLength(text, name)
    case Some(n) =>
      if i == 0 {
        assert OccursAt(text, text[..n], 0);
      } else {
        CallSitesOccur(text[n..], name, i - 1);
        var p :| OccursAt(text[n..], CallSites(text[n..], name)[i - 1], p);
        OccursAtShift(text, CallSites(text, name)[i], p + n, n);
      }
    case None =>
      CallSitesOccur(text[1..], name, i - 1 + 1);
      var p :| OccursAt(text[1..], CallSites(text[1..], name)[i], p);
      OccursAtShift(text, CallSites(text, name)[i], p + 1, 1);
  }

  lemma CallLengthTruncate(s: string, name: string, m: nat)
    requires CallLength(s, name).Some? && CallLength(s, name).value <= m <= |s|
    ensures CallLength(s[..m], name) == CallLength(s, name)
  {
    var n := CallLength(s, name).value;
    var w := s[|name| + 1..n - 1];
    CallLengthMatch(s, name);
    assert s[..m][..n] == s[..n];
    CallLengthOf(s[..m], name, w);
  }

  lemma CallLengthExtend(s: string, name: string, m: nat)
    requires m <= |s| && CallLength(s[..m], name).Some?
    ensures CallLength(s, name) == CallLength(s[..m], name)
  {
    var n := CallLength(s[..m], name).value;
    var w := s[..m][|name| + 1..n - 1];
    CallLengthMatch(s[..m], name);
    assert s[..n] == s[..m][..n];
    CallLengthOf(s, name, w);
  }

  /** Where a call site starts, the scan can be cut in two: the sites before it
      and the sites from it on. */
  lemma {:induction false} CallSitesSplitAt(text: string, name: string, q: nat)
    requires '(' !in name && q <= |text| && CallLength(text[q..], name).Some?
    ensures CallSites(text, name) == CallSites(text[..q], name) + CallSites(text[q..], name)
    decreases |text|, 1
  {
    if q == 0 {
      assert text[..0] == [] && text[0..] == text;
    } else {
      match CallLength(text, name)
      case Some(n) => CallSitesSplitPastCall(text, name, q, n);
      case None => CallSitesSplitPastChar(text, name, q);
    }
  }

  lemma {:induction false} CallSitesSplitPastCall(text: string, name: string, q: nat, n: nat)
    requires '(' !in name && 0 < q <= |text| && CallLength(text[q..], name).Some?
    requires CallLength(text, name) == Some(n)
    ensures CallSites(text, name) == CallSites(text[..q], name) + CallSites(text[q..], name)
    decreases |text|, 0
  {
    if n > q {
      CallsDoNotOverlap(text, name, q);
      assert false;
    }
    CallLengthTruncate(text, name, q);
    var rest := text[n..];
    SliceSplit(text, n, q);
    CallSitesTake(text, name, n, text[..n], rest);
    CallSitesTake(text[..q], name, n, text[..n], rest[..q - n]);
    CallSitesSplitAt(rest, name, q - n);
    Regroup(text[..n], CallSites(rest[..q - n], name), CallSites(text[q..], name));
  }

  lemma {:induction false} CallSitesSplitPastChar(text: string, name: string, q: nat)
    requires '(' !in name && 0 < q <= |text| && CallLength(text[q..], name).Some?
    requires CallLength(text, name).None?
    ensures CallSites(text, name) == CallSites(text[..q], name) + CallSites(text[q..], name)
    decreases |text|, 0
  {
    assert CallLength(text[..q], name).None? by {
      if CallLength(text[..q], name).Some? {
        CallLengthExtend(text, name, q);
        assert false;
      }
    }
    SliceSplit(text, 1, q);
    CallSitesSkip(text, name, text[1..]);
    CallSitesSkip(text[..q], name, text[1..][..q - 1]);
    CallSitesSplitAt(text[1..], name, q - 1);
  }

  /** `Uniq` keeps first occurrences: if `Uniq(xs)[j]` occurs at `b`, every
      earlier element of `Uniq(xs)` already occurs before `b`. */
  lemma {:induction false} UniqFirstOrder(xs: seq<string>, i: int, j: int, b: int)
    requires 0 <= i < j < |Uniq(xs)| && 0 <= b < |xs| && xs[b] == Uniq(xs)[j]
    ensures Uniq(xs)[i] in xs[..b]
    decreases |xs|
  {
    var init := xs[..|xs| - 1];
    var last := xs[|xs| - 1];
    var r0 := Uniq(init);
    if last in r0 {
      assert Uniq(xs) == r0;
      if b < |xs| - 1 {
        assert init[b] == xs[b];
        UniqFirstOrder(init, i, j, b);
        assert init[..b] == xs[..b];
      } else {
        assert r0[j] in init;
        var b' :| 0 <= b' < |init| && init[b'] == r0[j];
        UniqFirstOrder(init, i, j, b');
        assert r0[i] in init[..b'];
        assert forall x :: x in init[..b'] ==> x in xs[..b];
      }
    } else {
      assert Uniq(xs) == r0 + [last];
      if j < |r0| {
        if b == |xs| - 1 {
          assert false;
        }
        assert init[b] == xs[b];
        UniqFirstOrder(init, i, j, b);
        assert init[..b] == xs[..b];
      } else {
        assert r0[i] in init;
        if b < |xs| - 1 {
          assert false;
        }
        assert xs[..b] == init;
      }
    }
  }

  /** A call site read back: its member, with the binding in front, is the site. */
  lemma SiteMember(line: string, name: string)
    requires '(' !in name && '.' !in name && IsCallSite(line, name)
    ensures HasMember(line) && AllWord(MemberOf(line)) && line == CallOf(name, MemberOf(line))
  {
    CallMember(name, line[|name| + 1..|line| - 1]);
  }

  /** The `usedFunctions` of a binding are exactly the members `w` for which
      `name.w(` occurs somewhere in the text, each once. */
  lemma UsedFunctionsExact(text: string, name: string)
    requires '(' !in name && '.' !in name
    ensures var used := UsedFunctions(text, name);
      && (forall w :: w in used <==> exists p :: CallsAt(text, name, w, p))
      && (forall i, j :: 0 <= i < j < |used| ==> used[i] != used[j])
  {
    var used := UsedFunctions(text, name);
    UsedAreSites(text, name);
    forall w ensures w in used <==> exists p :: CallsAt(text, name, w, p) {
      if w in used {
        var k :| 0 <= k < |used| && used[k] == w;
        UsedIsCalled(text, name, k);
      }
      if exists p :: CallsAt(text, name, w, p) {
        var p :| CallsAt(text, name, w, p);
        CalledIsUsed(text, name, w, p);
      }
    }
  }

  /** Each used function is the member of one of the distinct call sites. */
  lemma UsedAreSites(text: string, name: string)
    requires '(' !in name && '.' !in name
    ensures var used := UsedFunctions(text, name); var r := Uniq(CallSites(text, name));
      && |used| == |r|
      && forall k :: 0 <= k < |r| ==> r[k] == CallOf(name, used[k]) && AllWord(used[k])
  {
    var sites := CallSites(text, name);
    var used := UsedFunctions(text, name);
    CallSitesHaveMembers(text, name);
    var r := Uniq(sites);
    assert |used| == |r| && forall k :: 0 <= k < |r| ==> used[k] == MemberOf(r[k]);
    forall k | 0 <= k < |r| ensures r[k] == CallOf(name, used[k]) && AllWord(used[k]) {
      assert r[k] in sites;
      SiteMember(r[k], name);
    }
  }

  lemma UsedIsCalled(text: string, name: string, k: int)
    requires '(' !in name && '.' !in name && 0 <= k < |UsedFunctions(text, name)|
    ensures exists p :: CallsAt(text, name, UsedFunctions(text, name)[k], p)
  {
    var sites := CallSites(text, name);
    var r := Uniq(sites);
    UsedAreSites(text, name);
    assert r[k] in sites;
    var t :| 0 <= t < |sites| && sites[t] == r[k];
    CallSitesOccur(text, name, t);
    var p :| OccursAt(text, sites[t], p);
    assert CallsAt(text, name, UsedFunctions(text, name)[k], p);
  }

  lemma CalledIsUsed(text: string, name: string, w: string, p: int)
    requires '(' !in name && '.' !in name && CallsAt(text, name, w, p)
    ensures w in UsedFunctions(text, name)
  {
    var r := Uniq(CallSites(text, name));
    UsedAreSites(text, name);
    CallSitesComplete(text, name, w, p);
    var k :| 0 <= k < |r| && r[k] == CallOf(name, w);
    CallMember(name, w);
    CallSitesHaveMembers(text, name);
    assert UsedFunctions(text, name)[k] == MemberOf(r[k]);
  }

  /** `usedFunctions` follows the order of first calls: every call of a later
      member is preceded by a call of each earlier member. */
  lemma UsedFunctionsFirstSeenOrder(text: string, name: string, i: int, j: int, q: nat)
    requires '(' !in name && '.' !in name
    requires 0 <= i < j < |UsedFunctions(text, name)|
    requires CallsAt(text, name, UsedFunctions(text, name)[j], q)
    ensures exists p :: 0 <= p < q && CallsAt(text, name, UsedFunctions(text, name)[i], p)
  {
    var sites := CallSites(text, name);
    var used := UsedFunctions(text, name);
    CallSitesHaveMembers(text, name);
    var r := Uniq(sites);
    assert r[i] in sites && r[j] in sites;
    SiteMember(r[i], name);
    SiteMember(r[j], name);
    assert used[i] == MemberOf(r[i]) && used[j] == MemberOf(r[j]);
    var c := CallOf(name, used[j]);
    OccursAtIsPrefix(text, c, q);
    CallLengthOf(text[q..], name, used[j]);
    CallSitesSplitAt(text, name, q);
    var before := CallSites(text[..q], name);
    var from := CallSites(text[q..], name);
    assert from[0] == text[q..][..|c|] == c;
    assert sites[|before|] == r[j];
    UniqFirstOrder(sites, i, j, |before|);
    assert sites[..|before|] == before;
    var t :| 0 <= t < |before| && before[t] == r[i];
    CallSitesOccur(text[..q], name, t);
    var p :| OccursAt(text[..q], before[t], p);
    OccursAtPrefix(text, r[i], p, q);
    assert CallsAt(text, name, used[i], p);
  }

  // ---------------------------------------------------------------------------
  // Lemmas about the declaration scan
  // ---------------------------------------------------------------------------

  lemma CloseAtLineEnd(s: string, t: char, b: string)
    requires IsLineTerminator(t)
    ensures forall j :: 0 <= j <= |s| ==> IsClose(s + [t] + b, j) == IsClose(s, j)
  {
    var x := s + [t] + b;
    assert x[|s|] == t;
    forall j | 0 <= j <= |s| ensures IsClose(x, j) == IsClose(s, j) {
      if j + 3 <= |s| {
        assert x[j] == s[j] && x[j + 1] == s[j + 1] && x[j + 2] == s[j + 2];
      }
    }
  }

  /** The closing part of a declaration never reaches past a line terminator. */
  lemma {:induction false} CloseLengthLineEnd(s: string, t: char, b: string)
    requires IsLineTerminator(t)
    ensures CloseLength(s + [t] + b) == CloseLength(s)
    decreases |s|
  {
    var x := s + [t] + b;
    CloseAtLineEnd(s, t, b);
    assert x[|s|] == t;
    if s != [] && !IsClose(s, 0) && !IsLineTerminator(s[0]) {
      assert x[0] == s[0];
      assert x[1..] == s[1..] + [t] + b;
      CloseLengthLineEnd(s[1..], t, b);
    }
  }

  lemma RequireLengthLineEnd(s: string, t: char, b: string)
    requires IsLineTerminator(t)
    ensures RequireLength(s + [t] + b) == RequireLength(s)
  {
    var x := s + [t] + b;
    assert x[|s|] == t;
    assert forall i :: 0 <= i < 11 ==> !IsLineTerminator(RequireOpen[i]);
    if |s| >= 12 {
      assert x[..11] == s[..11];
      assert x[11] == s[11];
      assert x[12..] == s[12..] + [t] + b;
      CloseLengthLineEnd(s[12..], t, b);
    } else if |s| < 11 {
      assert |x| >= 11 ==> x[..11][|s|] == t;
    }
  }

  lemma {:induction false} BindingLengthLineEnd(s: string, t: char, b: string)
    requires IsLineTerminator(t)
    ensures BindingLength(s + [t] + b) == BindingLength(s)
    decreases |s|
  {
    var x := s + [t] + b;
    RequireLengthLineEnd(s, t, b);
    if s == [] {
      assert x[0] == t;
    } else if RequireLength(s).None? && !IsLineTerminator(s[0]) {
      var rest := s[1..] + [t] + b;
      assert x[0] == s[0];
      assert x[1..] == rest;
      BindingLengthLineEnd(s[1..], t, b);
      BindingLengthStep(x, rest);
      BindingLengthStep(s, s[1..]);
    } else {
      assert x[0] == s[0];
    }
  }

  lemma DeclarationLengthLineEnd(s: string, t: char, b: string)
    requires IsLineTerminator(t)
    ensures DeclarationLength(s + [t] + b) == DeclarationLength(s)
  {
    var x := s + [t] + b;
    assert x[|s|] == t;
    if s != [] {
      assert x[0] == s[0];
      assert x[1..] == s[1..] + [t] + b;
      BindingLengthLineEnd(s[1..], t, b);
    }
  }

  /** Declarations never span lines: the matches in two lines joined by a line
      terminator are the matches in the first followed by those in the second. */
  lemma {:induction false} FindDeclarationsLines(a: string, t: char, b: string)
    requires IsLineTerminator(t)
    ensures FindDeclarations(a + [t] + b) == FindDeclarations(a) + FindDeclarations(b)
    decreases |a|
  {
    var x := a + [t] + b;
    DeclarationLengthLineEnd(a, t, b);
    if a == [] {
      assert x[1..] == b;
      FindDeclarationsSkip(x, b);
    } else {
      match DeclarationLength(a)
      case Some(n) =>
        var ra := a[n..];
        assert x[..n] == a[..n];
        assert x[n..] == ra + [t] + b;
        FindDeclarationsTake(x, n, a[..n], ra + [t] + b);
        FindDeclarationsTake(a, n, a[..n], ra);
        FindDeclarationsLines(ra, t, b);
        Regroup(a[..n], FindDeclarations(ra), FindDeclarations(b));
      case None =>
        assert x[1..] == a[1..] + [t] + b;
        FindDeclarationsSkip(x, a[1..] + [t] + b);
        FindDeclarationsSkip(a, a[1..]);
        FindDeclarationsLines(a[1..], t, b);
    }
  }

  /** The lazy module group depends only on the text up to its close: cutting
      the text anywhere past the close keeps the match, and a match in a
      prefix is the match in the whole text. */
  lemma {:induction false} CloseLengthCut(s: string, m: nat)
    requires m <= |s|
    ensures CloseLength(s[..m]).Some? ==> CloseLength(s) == CloseLength(s[..m])
    ensures CloseLength(s).Some? && CloseLength(s).value <= m ==> CloseLength(s[..m]) == CloseLength(s)
    decreases |s|
  {
    var t := s[..m];
    if m >= 3 {
      assert t[0] == s[0] && t[1] == s[1] && t[2] == s[2];
    }
    if !IsClose(s, 0) && s != [] && !IsLineTerminator(s[0]) && m >= 1 {
      assert t[1..] == s[1..][..m - 1];
      CloseLengthCut(s[1..], m - 1);
    }
  }

  /** The same for ` = require(`, a quote and the module group. */
  lemma RequireLengthCut(s: string, m: nat)
    requires m <= |s|
    ensures RequireLength(s[..m]).Some? ==> RequireLength(s) == RequireLength(s[..m])
    ensures RequireLength(s).Some? && RequireLength(s).value <= m ==> RequireLength(s[..m]) == RequireLength(s)
  {
    if m >= 12 {
      var t := s[..m];
      assert t[..11] == s[..11] && t[11] == s[11];
      assert t[12..] == s[12..][..m - 12];
      CloseLengthCut(s[12..], m - 12);
    }
  }

  /** Cutting the text past the end of a binding match keeps that match. */
  lemma {:induction false} BindingLengthCut(s: string, m: nat)
    requires m <= |s| && BindingLength(s).Some? && BindingLength(s).value <= m
    ensures BindingLength(s[..m]) == BindingLength(s)
    decreases |s|
  {
    RequireLengthCut(s, m);
    if RequireLength(s).None? {
      var t := s[..m];
      assert t[0] == s[0];
      assert t[1..] == s[1..][..m - 1];
      BindingLengthCut(s[1..], m - 1);
    }
  }

  /** Cutting the text past the end of a declaration match keeps that match. */
  lemma DeclarationLengthCut(s: string, m: nat)
    requires m <= |s| && DeclarationLength(s).Some? && DeclarationLength(s).value <= m
    ensures DeclarationLength(s[..m]) == DeclarationLength(s)
  {
    assert s[..m][0] == s[0];
    assert s[..m][1..] == s[1..][..m - 1];
    BindingLengthCut(s[1..], m - 1);
  }

  /** Every element of the match list is, on its own, exactly one match of the
      whole declaration pattern: separator, lazy binding, ` = require(`, quote,
      lazy module, quote and `);`. */
  lemma {:induction false} FindDeclarationsExact(text: string)
    ensures forall i :: 0 <= i < |FindDeclarations(text)| ==>
      DeclarationLength(FindDeclarations(text)[i]) == Some(|FindDeclarations(text)[i]|)
    decreases |text|
  {
    if text != [] {
      match DeclarationLength(text)
      case Some(n) =>
        DeclarationLengthCut(text, n);
        FindDeclarationsTake(text, n, text[..n], text[n..]);
        FindDeclarationsExact(text[n..]);
      case None =>
        FindDeclarationsSkip(text, text[1..]);
        FindDeclarationsExact(text[1..]);
    }
  }

  lemma FindDeclarationsSkip(text: string, rest: string)
    requires text != [] && DeclarationLength(text).None? && text[1..] == rest
    ensures FindDeclarations(text) == FindDeclarations(rest)
  {
  }

  lemma FindDeclarationsTake(text: string, n: nat, head: string, rest: string)
    requires text != [] && DeclarationLength(text) == Some(n) && text[..n] == head && text[n..] == rest
    ensures FindDeclarations(text) == [head] + FindDeclarations(rest)
  {
  }

  lemma {:induction false} NoBindingWithoutEquals(s: string)
    requires '=' !in s
    ensures BindingLength(s).None?
    decreases |s|
  {
    assert RequireOpen[1] == '=';
    assert |s| >= 11 ==> s[..11][1] == s[1];
    if s != [] {
      NoBindingWithoutEquals(s[1..]);
    }
  }

  /** Text without `=` holds no declaration, so the inspector reports the
      missing match instead of a list. */
  lemma {:induction false} NoDeclarationsWithoutEquals(text: string, excludeDependencies: string)
    requires '=' !in text
    ensures FindDeclarations(text) == []
    ensures RequiredModules(text, excludeDependencies) == Err(NoRequireDeclaration)
    decreases |text|
  {
    if text != [] {
      NoBindingWithoutEquals(text[1..]);
      NoDeclarationsWithoutEquals(text[1..], excludeDependencies);
    }
  }

  /** Without a quote followed by `);` there is nothing for the pattern to close on. */
  lemma {:induction false} NoDeclarationsWithoutClose(text: string)
    requires forall j :: !IsClose(text, j)
    ensures FindDeclarations(text) == []
    decreases |text|
  {
    if text != [] {
      forall j ensures !IsClose(text[1..], j) {
        if 0 <= j {
          assert IsClose(text[1..], j) == IsClose(text, j + 1);
        }
      }
      NoDeclarationsWithoutClose(text[1..]);
      DeclarationLengthMatch(text);
    }
  }

  /** The tail of an invoked require: `'m')(arg);`. */
  function InvokedTail(m: string, arg: string): string {
    "'" + m + "')(" + arg + ");"
  }

  lemma InvokedTailNoClose(m: string, arg: string)
    requires NoQuote(m) && ')' !in m && NoQuote(arg)
    ensures forall j :: !IsClose(InvokedTail(m, arg), j)
  {
    var t := InvokedTail(m, arg);
    var k := |m| + 1;
    assert t == "'" + m + "'" + ")(" + (arg + ");");
    assert t[1..k] == m && t[k + 3..] == arg + ");";
    assert t[k] == '\'' && t[k + 2] == '(';
    forall j | 0 <= j < |t| && j != 0 && j != k ensures !IsQuote(t[j]) {
      if j < k {
        assert t[j] == m[j - 1];
      } else if k + 3 <= j {
        assert t[j] == (arg + ");")[j - k - 3];
      }
    }
    forall j ensures !IsClose(t, j) {
      if j == 0 && m != [] {
        assert t[1] == m[0];
      }
    }
  }

  lemma NoClosePrefix(x: string, t: string)
    requires NoQuote(x) && forall j :: !IsClose(t, j)
    ensures forall j :: !IsClose(x + t, j)
  {
    forall j ensures !IsClose(x + t, j) {
      if 0 <= j < |x| {
        assert (x + t)[j] == x[j];
      } else if |x| <= j {
        assert IsClose(x + t, j) == IsClose(t, j - |x|);
      }
    }
  }

  /** A require whose result is called at once, `name = require('m')(arg);`,
      is not a declaration: its closing quote is followed by `)(`, not by `);`. */
  lemma InvokedRequireIgnored(lead: string, name: string, m: string, arg: string)
    requires NoQuote(lead) && NoQuote(name) && NoQuote(m) && ')' !in m && NoQuote(arg)
    ensures FindDeclarations(lead + " " + name + RequireOpen + InvokedTail(m, arg)) == []
  {
    var x := lead + " " + name + RequireOpen;
    assert NoQuote(x) by {
      assert NoQuote(RequireOpen);
    }
    InvokedTailNoClose(m, arg);
    NoClosePrefix(x, InvokedTail(m, arg));
    NoDeclarationsWithoutClose(x + InvokedTail(m, arg));
  }

  predicate NoQuote(s: string) {
    forall i :: 0 <= i < |s| ==> !IsQuote(s[i])
  }

  lemma {:induction false} CloseLengthOf(m: string, q: char)
    requires IsQuote(q) && OnOneLine(m) && NoQuote(m)
    ensures CloseLength(m + [q] + ");") == Some(|m| + 3)
    decreases |m|
  {
    var s := m + [q] + ");";
    if m == [] {
      assert s == [q, ')', ';'];
    } else {
      assert s[0] == m[0];
      assert s[1..] == m[1..] + [q] + ");";
      CloseLengthOf(m[1..], q);
    }
  }

  /** Where ` = require(` does not start `s`, the lazy binding group takes one more character. */
  lemma BindingLengthStep(s: string, rest: string)
    requires s != [] && !IsLineTerminator(s[0]) && RequireLength(s).None? && s[1..] == rest
    ensures BindingLength(rest).Some? ==> BindingLength(s) == Some(BindingLength(rest).value + 1)
    ensures BindingLength(rest).None? ==> BindingLength(s).None?
  {
  }

  lemma NoRequireOpen(x: string)
    requires |x| >= 2 && x[1] != '='
    ensures RequireLength(x).None?
  {
    assert RequireOpen[1] == '=';
    assert |x| >= 11 ==> x[..11][1] == x[1];
  }

  /** The lazy binding group passes over text without `=` to the first ` = require(`. */
  lemma BindingLengthPast(u: string, tail: string)
    requires OnOneLine(u) && '=' !in u
    requires |tail| >= 2 && tail[0] != '=' && BindingLength(tail) == Some(|tail|)
    ensures BindingLength(u + tail) == Some(|u| + |tail|)
  {
    var x := u + tail;
    assert |x| == |u| + |tail|;
    ConcatSlices(u, tail);
    BindingLengthPastAt(x, |u|);
  }

  lemma {:induction false} BindingLengthPastAt(x: string, k: nat)
    requires k + 2 <= |x| && OnOneLine(x[..k]) && '=' !in x[..k]
    requires x[k] != '=' && BindingLength(x[k..]) == Some(|x| - k)
    ensures BindingLength(x) == Some(|x|)
    decreases k
  {
    if k == 0 {
      assert x[k..] == x;
    } else {
      PlainTail(x, k);
      BindingLengthPastAt(x[1..], k - 1);
      NoRequireOpen(x);
      BindingLengthStep(x, x[1..]);
    }
  }

  /** Dropping the first character of a plain prefix leaves a plain prefix. */
  lemma PlainTail(x: string, k: nat)
    requires 0 < k && k + 2 <= |x| && OnOneLine(x[..k]) && '=' !in x[..k] && x[k] != '='
    ensures !IsLineTerminator(x[0]) && x[1] != '='
    ensures OnOneLine(x[1..][..k - 1]) && '=' !in x[1..][..k - 1] && x[1..][k - 1..] == x[k..] && x[1..][k - 1] != '='
  {
    var y := x[1..];
    assert y[..k - 1] == x[1..k];
    assert x[0] == x[..k][0];
    assert x[1] != '=' by {
      if k > 1 {
        assert x[1] == x[..k][1];
      }
    }
    assert y[..k - 1] == x[..k][1..];
  }

  /** ` = require(`, a quote, the module, a quote and `);`. */
  function RequireTail(q: char, m: string): string {
    RequireOpen + [q] + m + [q] + ");"
  }

  /** A declaration `<space>name = require(<q>m<q>);`. */
  function DeclarationText(name: string, q: char, m: string): string {
    " " + name + RequireTail(q, m)
  }

  lemma RequireTailMatches(q: char, m: string)
    requires IsQuote(q) && OnOneLine(m) && NoQuote(m)
    ensures var t := RequireTail(q, m);
      |t| >= 2 && t[0] == ' ' && BindingLength(t) == Some(|t|)
  {
    var t := RequireTail(q, m);
    assert t[..11] == RequireOpen;
    assert t[0] == RequireOpen[0] == ' ';
    assert t[11] == q;
    assert t[12..] == m + [q] + ");";
    CloseLengthOf(m, q);
    assert RequireLength(t) == Some(|t|);
  }

  lemma WholeDeclaration(name: string, tail: string)
    requires BindingLength(name + tail) == Some(|name| + |tail|)
    ensures FindDeclarations(" " + name + tail) == [" " + name + tail]
  {
    var d := " " + name + tail;
    assert IsSeparator(d[0]);
    DropHead(" ", name, tail);
    OnlyDeclaration(d);
  }

  lemma OnlyDeclaration(d: string)
    requires d != [] && IsSeparator(d[0]) && BindingLength(d[1..]) == Some(|d| - 1)
    ensures FindDeclarations(d) == [d]
  {
    assert DeclarationLength(d) == Some(|d|);
    FirstDeclaration(d);
    assert d[..|d|] == d;
    assert d[|d|..] == [];
    assert FindDeclarations([]) == [];
  }

  lemma FirstDeclaration(text: string)
    requires DeclarationLength(text).Some?
    ensures var n := DeclarationLength(text).value;
      FindDeclarations(text) == [text[..n]] + FindDeclarations(text[n..])
  {
  }

  lemma {:induction false} SkipLead(lead: string, s: string)
    requires forall i :: 0 <= i < |lead| ==> !IsSeparator(lead[i])
    ensures FindDeclarations(lead + s) == FindDeclarations(s)
    decreases |lead|
  {
    if lead != [] {
      assert (lead + s)[0] == lead[0];
      assert (lead + s)[1..] == lead[1..] + s;
      SkipLead(lead[1..], s);
    } else {
      assert lead + s == s;
    }
  }

  /** A declaration alone on its line, after a lead without spaces or periods
      (a keyword such as `const`), is exactly one match of the pattern. */
  lemma DeclarationMatched(lead: string, name: string, q: char, m: string)
    requires forall i :: 0 <= i < |lead| ==> !IsSeparator(lead[i])
    requires OnOneLine(name) && '=' !in name
    requires IsQuote(q) && OnOneLine(m) && NoQuote(m)
    ensures FindDeclarations(lead + DeclarationText(name, q, m)) == [DeclarationText(name, q, m)]
  {
    var tail := RequireTail(q, m);
    RequireTailMatches(q, m);
    BindingLengthPast(name, tail);
    WholeDeclaration(name, tail);
    SkipLead(lead, DeclarationText(name, q, m));
  }

  lemma StripSingleQuoted(name: string, m: string)
    requires '\'' !in name && '\'' !in m
    ensures StripRequire(DeclarationText(name, '\'', m)) == " " + name + " = " + m
  {
    var pre := " " + name + " = ";
    DropOpen(name, m);
    assert '\'' !in pre + m;
    DropClose(pre, m);
  }

  /** The first replacement removes the opening `require('`. */
  lemma DropOpen(name: string, m: string)
    requires '\'' !in name
    ensures ReplaceFirst(DeclarationText(name, '\'', m), "require('", "") == " " + name + " = " + m + "');"
  {
    var d := DeclarationText(name, '\'', m);
    var pre := " " + name + " = ";
    var post := m + "');";
    OpenParts(name, m);
    OpenPattern();
    assert '\'' !in pre + "require('"[..8];
    IndexOfFirstAt(pre, "require('", post, 8);
    ReplaceAt(d, "require('", "", pre, post);
    assert pre + "" + post == pre + m + "');";
  }

  lemma OpenParts(name: string, m: string)
    ensures DeclarationText(name, '\'', m) == " " + name + " = " + "require('" + (m + "');")
  {
  }

  lemma OpenPattern()
    ensures "require('"[8] == '\'' && "require('"[..8] == "require("
  {
  }

  /** The second replacement removes the closing `');`. */
  lemma DropClose(pre: string, m: string)
    requires '\'' !in pre + m
    ensures ReplaceFirst(pre + m + "');", "');", "") == pre + m
  {
    var d1 := pre + m + "');";
    assert d1 == (pre + m) + "');" + "";
    IndexOfUnique(pre + m, "');", "", 0);
    ReplaceAt(d1, "');", "", pre + m, "");
    assert pre + m + "" + "" == pre + m;
  }

  lemma TrimLeadingSpace(s: string)
    ensures Trim(" " + s) == Trim(s)
  {
    assert " " + s == " " + s + "";
    TrimPadded(" ", s, "");
  }

  /** The binding split off a stripped declaration `<space>name = rest`. */
  lemma SplitStripped(name: string, rest: string)
    requires '=' !in name && '=' !in rest
    ensures BindingName(" " + name + " = " + rest) == Trim(name)
    ensures ModuleName(" " + name + " = " + rest) == Trim(" " + rest)
  {
    var left := " " + name + " ";
    assert '=' !in left;
    assert " " + name + " = " + rest == left + ['='] + (" " + rest);
    SplitCons(left, " " + rest, '=');
    SplitNoSep(" " + rest, '=');
    assert Split(" " + name + " = " + rest, '=') == [left, " " + rest];
    assert left == " " + name + " ";
    TrimPadded(" ", name, " ");
  }

  /** A single-quoted declaration on its own line yields its binding name and
      module id, both trimmed. */
  lemma SingleQuotedDeclaration(lead: string, name: string, m: string)
    requires forall i :: 0 <= i < |lead| ==> !IsSeparator(lead[i])
    requires OnOneLine(name) && '=' !in name && NoQuote(name)
    requires OnOneLine(m) && NoQuote(m) && '=' !in m
    ensures var d := DeclarationText(name, '\'', m);
      && FindDeclarations(lead + d) == [d]
      && BindingName(StripRequire(d)) == Trim(name)
      && ModuleName(StripRequire(d)) == Trim(m)
  {
    DeclarationMatched(lead, name, '\'', m);
    assert '\'' !in name && '\'' !in m;
    StripSingleQuoted(name, m);
    SplitStripped(name, m);
    TrimLeadingSpace(m);
  }

  lemma StripLeavesDoubleQuoted(name: string, m: string)
    requires NoQuote(name) && NoQuote(m)
    ensures StripRequire(DeclarationText(name, '"', m)) == " " + name + " = " + DoubleWrapped(m)
  {
    var d := DeclarationText(name, '"', m);
    assert '\'' !in d by {
      assert '\'' !in RequireOpen;
      assert '\'' !in name && '\'' !in m;
    }
    IndexOfAbsent(d, "require('", 8);
    IndexOfAbsent(d, "');", 0);
    assert RequireOpen == " = " + "require(";
  }

  lemma StripDoubleQuoted(name: string, m: string)
    requires '=' !in name && NoQuote(name) && '=' !in m && NoQuote(m)
    ensures BindingName(StripRequire(DeclarationText(name, '"', m))) == Trim(name)
    ensures ModuleName(StripRequire(DeclarationText(name, '"', m))) == "require(\"" + m + "\");"
  {
    StripLeavesDoubleQuoted(name, m);
    Wrapped(m);
    SplitStripped(name, DoubleWrapped(m));
  }

  /** `require("m");`, the text a double-quoted declaration keeps. */
  function DoubleWrapped(m: string): string {
    "require(\"" + m + "\");"
  }

  lemma Wrapped(m: string)
    requires '=' !in m
    ensures '=' !in DoubleWrapped(m) && Trim(" " + DoubleWrapped(m)) == DoubleWrapped(m)
  {
    var wrapped := DoubleWrapped(m);
    assert '=' !in wrapped by {
      assert '=' !in "require(\"" && '=' !in "\");";
    }
    assert wrapped[0] == 'r' && wrapped[|wrapped| - 1] == ';';
    TrimLeadingSpace(wrapped);
    TrimUnpadded(wrapped);
  }

  /** A double-quoted declaration is matched too, but its `require("` wrapper
      is not stripped: the module id keeps it. */
  lemma DoubleQuotedKeepsWrapper(lead: string, name: string, m: string)
    requires forall i :: 0 <= i < |lead| ==> !IsSeparator(lead[i])
    requires OnOneLine(name) && '=' !in name && NoQuote(name)
    requires OnOneLine(m) && NoQuote(m) && '=' !in m
    ensures var d := DeclarationText(name, '"', m);
      && FindDeclarations(lead + d) == [d]
      && BindingName(StripRequire(d)) == Trim(name)
      && ModuleName(StripRequire(d)) == "require(\"" + m + "\");"
  {
    DeclarationMatched(lead, name, '"', m);
    StripDoubleQuoted(name, m);
  }

  // ---------------------------------------------------------------------------
  // Call sites line by line
  // ---------------------------------------------------------------------------

  lemma {:induction false} WordRunLineEnd(s: string, t: char, b: string)
    requires !IsWordChar(t)
    ensures WordRunLength(s + [t] + b) == WordRunLength(s)
    decreases |s|
  {
    if s == [] {
      assert (s + [t] + b)[0] == t;
    } else {
      assert (s + [t] + b)[0] == s[0];
      assert (s + [t] + b)[1..] == s[1..] + [t] + b;
      WordRunLineEnd(s[1..], t, b);
    }
  }

  lemma CallLengthLineEnd(s: string, name: string, t: char, b: string)
    requires IsLineTerminator(t) && OnOneLine(name)
    ensures CallLength(s + [t] + b, name) == CallLength(s, name)
  {
    var x := s + [t] + b;
    var k := |name| + 1;
    assert x[|s|] == t;
    if |s| >= k {
      assert x[..k] == s[..k];
      if IsPrefix(name + ".", s) {
        var after := x[k..];
        assert after == s[k..] + [t] + b;
        WordRunLineEnd(s[k..], t, b);
        var run := WordRunLength(s[k..]);
        CallLengthAt(s, name, s[k..], run);
        CallLengthAt(x, name, after, run);
        assert x[k + run] == if k + run < |s| then s[k + run] else t;
      } else {
        assert !IsPrefix(name + ".", x);
      }
    } else {
      assert !IsLineTerminator((name + ".")[|s|]);
      assert |x| >= k ==> x[..k][|s|] == t;
      assert !IsPrefix(name + ".", x);
    }
  }

  /** The call-site pattern once `name.` is found: the word run, then `(`. */
  lemma CallLengthAt(s: string, name: string, after: string, run: nat)
    requires IsPrefix(name + ".", s) && s[|name| + 1..] == after && WordRunLength(after) == run
    ensures var k := |name| + 1 + run;
      CallLength(s, name) == if k < |s| && s[k] == '(' then Some(k + 1) else None
  {
  }

  /** Call sites never span lines either (the binding name is on one line). */
  lemma {:induction false} CallSitesLines(a: string, name: string, t: char, b: string)
    requires IsLineTerminator(t) && OnOneLine(name)
    ensures CallSites(a + [t] + b, name) == CallSites(a, name) + CallSites(b, name)
    decreases |a|
  {
    var x := a + [t] + b;
    CallLengthLineEnd(a, name, t, b);
    if a == [] {
      assert x[1..] == b;
      assert CallLength(a, name).None?;
      CallSitesSkip(x, name, b);
      assert CallSites(a, name) == [];
    } else {
      var n := CallLength(a, name);
      if n.Some? {
        var k := n.value;
        var rest := a[k..] + [t] + b;
        assert x[..k] == a[..k];
        assert x[k..] == rest;
        CallSitesTake(x, name, k, a[..k], rest);
        CallSitesTake(a, name, k, a[..k], a[k..]);
        CallSitesLines(a[k..], name, t, b);
        Regroup(a[..k], CallSites(a[k..], name), CallSites(b, name));
      } else {
        var rest := a[1..] + [t] + b;
        assert x[1..] == rest;
        CallSitesSkip(x, name, rest);
        CallSitesSkip(a, name, a[1..]);
        CallSitesLines(a[1..], name, t, b);
      }
    }
  }

  lemma CallSitesSkip(text: string, name: string, rest: string)
    requires text != [] && CallLength(text, name).None? && text[1..] == rest
    ensures CallSites(text, name) == CallSites(rest, name)
  {
  }

  lemma CallSitesTake(text: string, name: string, n: nat, head: string, rest: string)
    requires text != [] && CallLength(text, name) == Some(n) && text[..n] == head && text[n..] == rest
    ensures CallSites(text, name) == [head] + CallSites(rest, name)
  {
  }

  lemma Regroup(h: string, xs: seq<string>, ys: seq<string>)
    ensures [h] + (xs + ys) == [h] + xs + ys
  {
  }

  /** Text without a period holds no call site. */
  lemma {:induction false} NoCallSitesWithoutDot(text: string, name: string)
    requires '.' !in text
    ensures CallSites(text, name) == []
    decreases |text|
  {
    assert |text| > |name| ==> text[..|name| + 1][|name|] == text[|name|];
    assert (name + ".")[|name|] == '.';
    if text != [] {
      NoCallSitesWithoutDot(text[1..], name);
    }
  }

  // ---------------------------------------------------------------------------
  // The reducer
  // ---------------------------------------------------------------------------

  /** Outcomes are collected in order: keeping the stubs of a concatenation
      is keeping those of each part in turn. */
  lemma {:induction false} KeptAppend(o1: seq<Option<StubSpec>>, o2: seq<Option<StubSpec>>)
    ensures Kept(o1 + o2) == Kept(o1) + Kept(o2)
    decreases |o2|
  {
    if o2 == [] {
      assert o1 + o2 == o1;
    } else {
      var init := o2[..|o2| - 1];
      var o := o1 + o2;
      assert o[..|o| - 1] == o1 + init;
      assert o[|o| - 1] == o2[|o2| - 1];
      KeptAppend(o1, init);
    }
  }

  /** Every kept stub is the outcome of one of the steps. */
  lemma {:induction false} KeptFrom(outcomes: seq<Option<StubSpec>>, k: int)
    requires 0 <= k < |Kept(outcomes)|
    ensures exists i :: 0 <= i < |outcomes| && outcomes[i] == Some(Kept(outcomes)[k])
    decreases |outcomes|
  {
    var init := outcomes[..|outcomes| - 1];
    if k < |Kept(init)| {
      KeptFrom(init, k);
      var i :| 0 <= i < |init| && init[i] == Some(Kept(init)[k]);
      assert outcomes[i] == init[i];
    } else {
      assert outcomes[|outcomes| - 1] == Some(Kept(outcomes)[k]);
    }
  }

  /** Every stub some step produces is kept. */
  lemma KeptHas(outcomes: seq<Option<StubSpec>>, i: int)
    requires 0 <= i < |outcomes| && outcomes[i].Some?
    ensures outcomes[i].value in Kept(outcomes)
  {
    assert outcomes == outcomes[..i] + [outcomes[i]] + outcomes[i + 1..];
    KeptAppend(outcomes[..i] + [outcomes[i]], outcomes[i + 1..]);
    KeptAppend(outcomes[..i], [outcomes[i]]);
    assert [outcomes[i]][..0] == [];
    assert Kept([outcomes[i]]) == [outcomes[i].value];
  }

  lemma MapOutcomesAppend(step: string -> Option<StubSpec>, v1: seq<string>, v2: seq<string>)
    ensures MapOutcomes(step, v1 + v2) == MapOutcomes(step, v1) + MapOutcomes(step, v2)
  {
    var o, o1, o2 := MapOutcomes(step, v1 + v2), MapOutcomes(step, v1), MapOutcomes(step, v2);
    forall j | 0 <= j < |o| ensures o[j] == (o1 + o2)[j] {
      if j < |v1| {
        assert (v1 + v2)[j] == v1[j];
      } else {
        assert (v1 + v2)[j] == v2[j - |v1|];
      }
    }
  }

  /** The reducer visits the declarations in order. */
  lemma StubsAppend(text: string, excluded: seq<string>, v1: seq<string>, v2: seq<string>)
    ensures Stubs(text, excluded, v1 + v2) == Stubs(text, excluded, v1) + Stubs(text, excluded, v2)
  {
    MapOutcomesAppend(value => StubFor(text, excluded, value), v1, v2);
    KeptAppend(Outcomes(text, excluded, v1), Outcomes(text, excluded, v2));
  }

  lemma OneDeclaration(text: string, d: string)
    requires FindDeclarations(text) == [d]
    ensures Declarations(text) == [StripRequire(d)]
  {
  }

  /** The reducer over a single declaration whose binding is kept and used. */
  lemma StubsOne(text: string, excluded: seq<string>, value: string)
    requires !Excluded(BindingName(value), excluded) && UsedFunctions(text, BindingName(value)) != []
    ensures Stubs(text, excluded, [value])
         == [StubSpec(ModuleName(value), UsedFunctions(text, BindingName(value)), BindingName(value) + "Stub")]
  {
    var s := StubSpec(ModuleName(value), UsedFunctions(text, BindingName(value)), BindingName(value) + "Stub");
    assert StubFor(text, excluded, value) == Some(s);
    OutcomesOne(text, excluded, value);
    KeptOne(s);
  }

  lemma OutcomesOne(text: string, excluded: seq<string>, value: string)
    ensures Outcomes(text, excluded, [value]) == [StubFor(text, excluded, value)]
  {
  }

  lemma KeptOne(s: StubSpec)
    ensures Kept([Some(s)]) == [s]
  {
    assert [Some(s)][..0] == [];
  }

  /** The stub a kept declaration `value` turns into. */
  predicate StubOf(text: string, excluded: seq<string>, value: string, s: StubSpec) {
    var name := BindingName(value);
    && !Excluded(name, excluded)
    && s == StubSpec(ModuleName(value), UsedFunctions(text, name), name + "Stub")
    && s.usedFunctions != []
  }

  /** Each entry of the result describes a declaration of the text whose
      binding is not excluded and is called at least once: its module id,
      the members called through it, and the binding name with `Stub` appended. */
  lemma RequiredModulesSound(text: string, excludeDependencies: string, k: int)
    requires RequiredModules(text, excludeDependencies).Ok?
    requires 0 <= k < |RequiredModules(text, excludeDependencies).value|
    ensures exists i :: 0 <= i < |Declarations(text)|
                     && StubOf(text, Split(excludeDependencies, ' '), Declarations(text)[i], RequiredModules(text, excludeDependencies).value[k])
  {
    var excluded := Split(excludeDependencies, ' ');
    var values := Declarations(text);
    var outcomes := Outcomes(text, excluded, values);
    KeptFrom(outcomes, k);
    var i :| 0 <= i < |outcomes| && outcomes[i] == Some(Kept(outcomes)[k]);
    assert StubFor(text, excluded, values[i]) == outcomes[i];
  }

  /** A declaration whose binding is not excluded and is called somewhere in the
      text has its stub in the result, listing that call's member. */
  lemma RequiredModulesComplete(text: string, excludeDependencies: string, i: int, w: string, p: nat)
    requires 0 <= i < |Declarations(text)|
    requires var name := BindingName(Declarations(text)[i]);
      && !Excluded(name, Split(excludeDependencies, ' ')) && '.' !in name && CallsAt(text, name, w, p)
    ensures RequiredModules(text, excludeDependencies).Ok?
    ensures var value := Declarations(text)[i];
      var name := BindingName(value);
      && w in UsedFunctions(text, name)
      && StubSpec(ModuleName(value), UsedFunctions(text, name), name + "Stub") in RequiredModules(text, excludeDependencies).value
  {
    var values := Declarations(text);
    var excluded := Split(excludeDependencies, ' ');
    CalledStub(text, excluded, values[i], w, p);
    var outcomes := Outcomes(text, excluded, values);
    assert outcomes[i] == StubFor(text, excluded, values[i]);
    KeptHas(outcomes, i);
  }

  /** A kept binding that is called yields a stub naming that call's member. */
  lemma CalledStub(text: string, excluded: seq<string>, value: string, w: string, p: nat)
    requires var name := BindingName(value);
      && !Excluded(name, excluded) && '.' !in name && CallsAt(text, name, w, p)
    ensures var name := BindingName(value);
      && w in UsedFunctions(text, name)
      && StubFor(text, excluded, value) == Some(StubSpec(ModuleName(value), UsedFunctions(text, name), name + "Stub"))
  {
    UsedFunctionsExact(text, BindingName(value));
  }

  lemma CallLengthCalls(text: string, name: string)
    ensures CallLength(text, name).Some? ==>
      CallsAt(text, name, text[|name| + 1..CallLength(text, name).value - 1], 0)
  {
    CallLengthMatch(text, name);
  }

  /** A binding that is never called is dropped. */
  lemma {:induction false} UncalledHasNoSites(text: string, name: string)
    requires forall w, p :: !CallsAt(text, name, w, p)
    ensures CallSites(text, name) == []
    decreases |text|
  {
    if text != [] {
      CallLengthCalls(text, name);
      assert CallLength(text, name).None?;
      forall w, p ensures !CallsAt(text[1..], name, w, p) {
        if 0 <= p {
          OccursAtShift(text, CallOf(name, w), p + 1, 1);
          assert !CallsAt(text, name, w, p + 1);
        }
      }
      UncalledHasNoSites(text[1..], name);
    }
  }

  /** A declaration whose binding is called nowhere yields no stub. */
  lemma UncalledDropped(text: string, excluded: seq<string>, value: string)
    requires forall w, p :: !CallsAt(text, BindingName(value), w, p)
    ensures StubFor(text, excluded, value) == None
  {
    UncalledHasNoSites(text, BindingName(value));
  }

  /** An excluded binding never shows up in the result, however it is used:
      no entry is named after it. */
  lemma ExcludedNeverStubbed(text: string, excludeDependencies: string, x: string, k: int)
    requires Excluded(x, Split(excludeDependencies, ' '))
    requires RequiredModules(text, excludeDependencies).Ok?
    requires 0 <= k < |RequiredModules(text, excludeDependencies).value|
    ensures RequiredModules(text, excludeDependencies).value[k].name != x + "Stub"
  {
    RequiredModulesSound(text, excludeDependencies, k);
    var i :| 0 <= i < |Declarations(text)|
      && StubOf(text, Split(excludeDependencies, ' '), Declarations(text)[i], RequiredModules(text, excludeDependencies).value[k]);
    var name := BindingName(Declarations(text)[i]);
    if |name| == |x| {
      assert (name + "Stub")[..|x|] == name && (x + "Stub")[..|x|] == x;
    } else {
      assert |name + "Stub"| != |x + "Stub"|;
    }
  }

  // ---------------------------------------------------------------------------
  // getRequiredModules
  // ---------------------------------------------------------------------------

  /** `getRequiredModules(absolutePath, excludeDependencies)` with the file's
      content passed in as `text`: the declarations are reduced one by one
      into the list of stubs, as the inspector's `_.reduce` pushes them. */
  method GetRequiredModules(text: string, excludeDependencies: string := "") returns (r: Result<seq<StubSpec>, InspectError>)
    ensures r.Err? <==> FindDeclarations(text) == []
    ensures r == RequiredModules(text, excludeDependencies)
  {
    var excludedList := Split(excludeDependencies, ' ');
    var matches := FindDeclarations(text);
    if matches == [] {
      return Err(NoRequireDeclaration);
    }
    var values := Declarations(text);
    ghost var outcomes := Outcomes(text, excludedList, values);
    var result: seq<StubSpec> := [];
    var i := 0;
    while i < |values|
      invariant 0 <= i <= |values|
      invariant result == Kept(outcomes[..i])
    {
      var value := values[i];
      KeptStep(outcomes, i);
      ghost var outcome := StubFor(text, excludedList, value);
      assert outcomes[i] == outcome;
      var arr := Split(value, '=');
      var name := Trim(arr[0]);
      assert name == BindingName(value);
      if !(HasParen(name) || name in excludedList) {
        var moduleId := Trim(Join(arr[1..], ","));
        var usedFunctionLines := CallSites(text, name);
        var usedFunctions: seq<string> := [];
        if usedFunctionLines != [] {
          usedFunctions := UsedFunctions(text, name);
        }
        assert usedFunctions == UsedFunctions(text, name);
        if usedFunctions != [] {
          assert outcome == Some(StubSpec(moduleId, usedFunctions, name + "Stub"));
          result := result + [StubSpec(moduleId, usedFunctions, name + "Stub")];
        } else {
          assert outcome == None;
        }
      } else {
        assert outcome == None;
      }
      i := i + 1;
    }
    assert outcomes[..|values|] == outcomes;
    return Ok(result);
  }
}
