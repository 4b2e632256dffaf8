/** The JavaScript string operations the generator relies on: `split` with a
    one-character separator, `Array.prototype.join`, `trim`, `indexOf` and
    `replace` with a string pattern. Strings are sequences of characters. */
module JsText {

  /** WhiteSpace and LineTerminator code points: what `trim` and `\s` strip. */
  predicate IsJsSpace(c: char) {
    var n := c as int;
    (9 <= n <= 13) || n == 32 || n == 0xA0 || n == 0x1680 || (0x2000 <= n <= 0x200A)
    || n == 0x2028 || n == 0x2029 || n == 0x202F || n == 0x205F || n == 0x3000 || n == 0xFEFF
  }

  /** The code points a regular expression's `.` does not match. */
  predicate IsLineTerminator(c: char) {
    c == '\n' || c == '\r' || c as int == 0x2028 || c as int == 0x2029
  }

  predicate IsPrefix(p: string, s: string) {
    |p| <= |s| && s[..|p|] == p
  }

  predicate IsSuffix(p: string, s: string) {
    |p| <= |s| && s[|s| - |p|..] == p
  }

  /** `parts.join(sep)`. */
  function Join(parts: seq<string>, sep: string): string
  {
    if |parts| == 0 then ""
    else if |parts| == 1 then parts[0]
    else parts[0] + sep + Join(parts[1..], sep)
  }

  lemma ConcatAssoc(a: string, b: string, c: string)
    ensures a + (b + c) == a + b + c
  {
  }

  lemma ConcatSlices(a: string, b: string)
    ensures (a + b)[..|a|] == a && (a + b)[|a|..] == b
  {
  }

  lemma SliceSplit(s: string, n: nat, q: nat)
    requires n <= q <= |s|
    ensures s[..q][..n] == s[..n] && s[..q][n..] == s[n..][..q - n] && s[n..][q - n..] == s[q..]
  {
  }

  lemma JoinThree(a: string, b: string, c: string, sep: string)
    ensures Join([a, b, c], sep) == a + sep + b + sep + c
  {
    assert [a, b, c][1..] == [b, c] && [b, c][1..] == [c];
    assert Join([b, c], sep) == b + sep + c;
    ConcatAssoc(a + sep, b + sep, c);
    ConcatAssoc(a + sep, b, sep);
  }

  /** `s.split(sep)`: the pieces between separators, empty pieces kept. */
  function Split(s: string, sep: char): (parts: seq<string>)
    ensures |parts| >= 1
    ensures forall i :: 0 <= i < |parts| ==> sep !in parts[i]
  {
    if s == [] then [""]
    else
      var rest := Split(s[1..], sep);
      if s[0] == sep then [""] + rest
      else
        var parts := [[s[0]] + rest[0]] + rest[1..];
        assert parts[1..] == rest[1..];
        parts
  }

  /** Splitting and joining with the same separator give back `s`. */
  lemma {:induction false} JoinSplit(s: string, sep: char)
    ensures Join(Split(s, sep), [sep]) == s
  {
    if s != [] {
      var rest := Split(s[1..], sep);
      JoinSplit(s[1..], sep);
      if s[0] == sep {
        assert Join([""] + rest, [sep]) == [sep] + Join(rest, [sep]);
      } else {
        var parts := [[s[0]] + rest[0]] + rest[1..];
        assert |rest| >= 2 ==> Join(rest, [sep]) == rest[0] + [sep] + Join(rest[1..], [sep]);
        assert parts[1..] == rest[1..];
      }
    }
  }

  lemma {:induction false} JoinAppend(parts: seq<string>, x: string, sep: string)
    requires |parts| >= 1
    ensures Join(parts + [x], sep) == Join(parts, sep) + sep + x
  {
    if |parts| > 1 {
      assert (parts + [x])[1..] == parts[1..] + [x];
      JoinAppend(parts[1..], x, sep);
    }
  }

  lemma {:induction false} JoinConcat(a: seq<string>, b: seq<string>, sep: string)
    requires |a| >= 1 && |b| >= 1
    ensures Join(a + b, sep) == Join(a, sep) + sep + Join(b, sep)
  {
    assert (a + b)[1..] == a[1..] + b;
    if |a| > 1 {
      JoinConcat(a[1..], b, sep);
    }
  }

  lemma {:induction false} SplitCons(a: string, b: string, sep: char)
    requires sep !in a
    ensures Split(a + [sep] + b, sep) == [a] + Split(b, sep)
  {
    if a == [] {
      assert (a + [sep] + b)[1..] == b;
    } else {
      assert (a + [sep] + b)[1..] == a[1..] + [sep] + b;
      SplitCons(a[1..], b, sep);
      assert (a + [sep] + b)[0] == a[0] && a[0] != sep;
      assert [a[0]] + a[1..] == a;
    }
  }

  /** Splitting text joined at a separator splits each side separately. */
  lemma {:induction false} SplitAppend(a: string, b: string, sep: char)
    ensures Split(a + [sep] + b, sep) == Split(a, sep) + Split(b, sep)
  {
    if a == [] {
      assert (a + [sep] + b)[1..] == b;
    } else {
      assert (a + [sep] + b)[1..] == a[1..] + [sep] + b;
      SplitAppend(a[1..], b, sep);
    }
  }

  /** Joining pieces that do not contain the separator and splitting again
      gives back the pieces. */
  lemma {:induction false} SplitJoin(parts: seq<string>, sep: char)
    requires |parts| >= 1
    requires forall i :: 0 <= i < |parts| ==> sep !in parts[i]
    ensures Split(Join(parts, [sep]), sep) == parts
  {
    if |parts| == 1 {
      SplitNoSep(parts[0], sep);
    } else {
      SplitJoin(parts[1..], sep);
      SplitCons(parts[0], Join(parts[1..], [sep]), sep);
    }
  }

  lemma {:induction false} SplitNoSep(s: string, sep: char)
    requires sep !in s
    ensures Split(s, sep) == [s]
  {
    if s != [] {
      SplitNoSep(s[1..], sep);
      assert s[0] != sep by { assert s[0] in s; }
      assert [s[0]] + s[1..] == s;
    }
  }

  /** `s.trimStart()`: drops the leading blanks and nothing else. */
  function TrimStart(s: string): (r: string)
    ensures |r| <= |s| && r == s[|s| - |r|..]
    ensures forall i :: 0 <= i < |s| - |r| ==> IsJsSpace(s[i])
    ensures r == [] || !IsJsSpace(r[0])
  {
    if s != [] && IsJsSpace(s[0]) then
      var r := TrimStart(s[1..]);
      assert s[1..][|s| - 1 - |r|..] == s[|s| - |r|..];
      assert forall i :: 1 <= i < |s| - |r| ==> s[i] == s[1..][i - 1];
      r
    else s
  }

  /** `s.trimEnd()`: drops the trailing blanks and nothing else. */
  function TrimEnd(s: string): (r: string)
    ensures |r| <= |s| && r == s[..|r|]
    ensures forall i :: |r| <= i < |s| ==> IsJsSpace(s[i])
    ensures r == [] || !IsJsSpace(r[|r| - 1])
  {
    if s != [] && IsJsSpace(s[|s| - 1]) then
      var r := TrimEnd(s[..|s| - 1]);
      assert s[..|s| - 1][..|r|] == s[..|r|];
      assert forall i :: |r| <= i < |s| - 1 ==> s[i] == s[..|s| - 1][i];
      r
    else s
  }

  /** `s.trim()` (and lodash's `_.trim` without a character set). */
  function Trim(s: string): (r: string)
    ensures r == [] || (!IsJsSpace(r[0]) && !IsJsSpace(r[|r| - 1]))
    ensures s != [] && !IsJsSpace(s[0]) && !IsJsSpace(s[|s| - 1]) ==> r == s
  {
    TrimEnd(TrimStart(s))
  }

  predicate AllBlank(s: string) {
    forall i :: 0 <= i < |s| ==> IsJsSpace(s[i])
  }

  /** Blanks around a string do not survive trimming: padding a string with
      blanks on either side leaves its trimmed form unchanged. */
  lemma {:induction false} TrimPadded(pre: string, s: string, post: string)
    requires AllBlank(pre) && AllBlank(post)
    ensures Trim(pre + s + post) == Trim(s)
  {
    assert pre + s + post == pre + (s + post);
    TrimStartPadded(pre, s + post);
    var u := TrimStart(s);
    if u != [] {
      TrimStartAppend(s, post);
      TrimEndAppendBlank(u, post);
    } else {
      assert AllBlank(s + post) by {
        forall i | 0 <= i < |s + post| ensures IsJsSpace((s + post)[i]) {
          if i >= |s| { assert (s + post)[i] == post[i - |s|]; }
        }
      }
      AllBlankTrimStart(s + post);
    }
  }

  lemma {:induction false} TrimStartPadded(pre: string, s: string)
    requires AllBlank(pre)
    ensures TrimStart(pre + s) == TrimStart(s)
  {
    if pre != [] {
      var rest := pre[1..] + s;
      assert (pre + s)[1..] == rest;
      assert AllBlank(pre[1..]) by {
        forall i | 0 <= i < |pre| - 1 ensures IsJsSpace(pre[1..][i]) {
          assert pre[1..][i] == pre[i + 1];
        }
      }
      TrimStartSkip(pre + s, rest);
      TrimStartPadded(pre[1..], s);
    } else {
      assert pre + s == s;
    }
  }

  lemma TrimStartSkip(t: string, rest: string)
    requires t != [] && IsJsSpace(t[0]) && t[1..] == rest
    ensures TrimStart(t) == TrimStart(rest)
  {
  }

  lemma {:induction false} TrimEndAppendBlank(s: string, post: string)
    requires AllBlank(post)
    ensures TrimEnd(s + post) == TrimEnd(s)
  {
    if post != [] {
      var last := |post| - 1;
      assert (s + post)[..|s + post| - 1] == s + post[..last];
      TrimEndAppendBlank(s, post[..last]);
    } else {
      assert s + post == s;
    }
  }

  /** When `s` is not all blank, trimming the start of `s + post` is trimming
      the start of `s` followed by `post`. */
  lemma {:induction false} TrimStartAppend(s: string, post: string)
    requires TrimStart(s) != []
    ensures TrimStart(s + post) == TrimStart(s) + post
  {
    if s != [] && IsJsSpace(s[0]) {
      assert (s + post)[1..] == s[1..] + post;
      TrimStartAppend(s[1..], post);
    }
  }

  lemma {:induction false} AllBlankTrimStart(s: string)
    requires AllBlank(s)
    ensures TrimStart(s) == []
  {
    if s != [] {
      AllBlankTrimStart(s[1..]);
    }
  }

  predicate OccursAt(s: string, pat: string, j: int) {
    0 <= j && j + |pat| <= |s| && s[j..j + |pat|] == pat
  }

  /** `s.indexOf(pat)`: the first position at which `pat` occurs, or -1. */
  function IndexOf(s: string, pat: string): (i: int)
    ensures i == -1 || OccursAt(s, pat, i)
    ensures forall j :: 0 <= j && (i == -1 || j < i) ==> !OccursAt(s, pat, j)
  {
    if IsPrefix(pat, s) then 0
    else if |s| <= |pat| then -1
    else
      var k := IndexOf(s[1..], pat);
      OccursAtTail(s, pat);
      if k < 0 then -1 else k + 1
  }

  lemma OccursAtTail(s: string, pat: string)
    requires s != []
    ensures forall j :: 1 <= j ==> OccursAt(s, pat, j) == OccursAt(s[1..], pat, j - 1)
  {
    forall j | 1 <= j
      ensures OccursAt(s, pat, j) == OccursAt(s[1..], pat, j - 1)
    {
      if j + |pat| <= |s| {
        assert s[j..j + |pat|] == s[1..][j - 1..j - 1 + |pat|];
      }
    }
  }

  /** `s.replace(pat, rep)` with a string pattern: only the first occurrence is replaced. */
  function ReplaceFirst(s: string, pat: string, rep: string): (r: string)
  {
    var i := IndexOf(s, pat);
    if i < 0 then s else s[..i] + rep + s[i + |pat|..]
  }

  /** When the `o`-th character of `pat` occurs in `s` only where an occurrence
      of `pat` at `k` puts it, `k` is the first occurrence. */
  lemma IndexOfOnly(s: string, pat: string, k: nat, o: nat)
    requires OccursAt(s, pat, k) && o < |pat|
    requires forall j :: 0 <= j < |s| && s[j] == pat[o] ==> j == k + o
    ensures IndexOf(s, pat) == k
  {
    var i := IndexOf(s, pat);
    if i != -1 {
      assert s[i + o] == s[i..i + |pat|][o];
    }
  }

  /** A pattern whose `o`-th character occurs nowhere else, around it or in
      it, is first found where it was put. */
  lemma IndexOfUnique(pre: string, pat: string, post: string, o: nat)
    requires o < |pat| && pat[o] !in pre && pat[o] !in post
    requires forall i :: 0 <= i < |pat| && i != o ==> pat[i] != pat[o]
    ensures IndexOf(pre + pat + post, pat) == |pre|
  {
    var s := pre + pat + post;
    var k := |pre|;
    assert s[k..k + |pat|] == pat;
    forall j | 0 <= j < |s| && j != k + o ensures s[j] != pat[o] {
      if j < k {
        assert s[j] == pre[j];
      } else if j >= k + |pat| {
        assert s[j] == post[j - k - |pat|];
      } else {
        assert s[j] == pat[j - k];
      }
    }
    IndexOfOnly(s, pat, k, o);
  }

  /** A pattern whose `o`-th character occurs neither before it nor earlier
      in the pattern is first found where it was put, whatever follows. */
  lemma IndexOfFirstAt(pre: string, pat: string, post: string, o: nat)
    requires o < |pat| && pat[o] !in pre + pat[..o]
    ensures IndexOf(pre + pat + post, pat) == |pre|
  {
    var s := pre + pat + post;
    var k := |pre|;
    assert s[k..k + |pat|] == pat;
    assert OccursAt(s, pat, k);
    forall j | 0 <= j < k ensures !OccursAt(s, pat, j) {
      assert s[j + o] == (pre + pat[..o])[j + o];
      if j + |pat| <= |s| {
        assert s[j..j + |pat|][o] == s[j + o];
      }
    }
  }

  /** Replacing the first occurrence, once it is known where it is. */
  lemma ReplaceAt(s: string, pat: string, rep: string, pre: string, post: string)
    requires s == pre + pat + post && IndexOf(s, pat) == |pre|
    ensures ReplaceFirst(s, pat, rep) == pre + rep + post
  {
    assert s[..|pre|] == pre;
    assert s[|pre| + |pat|..] == post;
  }

  /** A pattern with a character that `s` lacks does not occur in `s`. */
  lemma IndexOfAbsent(s: string, pat: string, o: nat)
    requires o < |pat| && pat[o] !in s
    ensures IndexOf(s, pat) == -1
  {
    assert forall j :: OccursAt(s, pat, j) ==> s[j + o] == s[j..j + |pat|][o];
  }

  /** A string that neither starts nor ends with a blank is its own trimmed form. */
  lemma TrimUnpadded(s: string)
    requires s != [] && !IsJsSpace(s[0]) && !IsJsSpace(s[|s| - 1])
    ensures Trim(s) == s
  {
  }

  lemma DropHead(c: string, a: string, b: string)
    requires |c| == 1
    ensures (c + a + b)[1..] == a + b
  {
  }
}
