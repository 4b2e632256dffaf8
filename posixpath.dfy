/** The POSIX flavour of Node's `path` module, as far as the resolver uses it:
    `normalize`, `join`, `dirname`, `basename`, `extname`, `resolve` and
    `relative`. `normalize`, `resolve` and `relative` are described on the
    path's `/`-separated segments; `dirname`, `basename` and `extname` on its
    characters. */
module PosixPath {
  import opened JsText

  predicate IsAbsolute(p: string) {
    p != [] && p[0] == '/'
  }

  /** The `/`-separated pieces of a path, empty pieces and `.` included. */
  function Segments(p: string): seq<string> {
    Split(p, '/')
  }

  /** A segment that names a directory entry. */
  predicate IsName(s: string) {
    s != "" && s != "." && s != ".." && '/' !in s
  }

  predicate AllNames(st: seq<string>) {
    forall i :: 0 <= i < |st| ==> IsName(st[i])
  }

  /** What normalisation keeps: names, and `..` that climb above the start. */
  predicate IsStack(st: seq<string>) {
    forall i :: 0 <= i < |st| ==> IsName(st[i]) || st[i] == ".."
  }

  predicate NoSlash(segs: seq<string>) {
    forall i :: 0 <= i < |segs| ==> '/' !in segs[i]
  }

  // ---------------------------------------------------------------------------
  // normalize, join, resolve
  // ---------------------------------------------------------------------------

  /** One segment of Node's `normalizeString`: empty pieces and `.` vanish, a
      name is pushed, and `..` removes the last name, or is kept when the path
      may climb above its start (a relative path), or is dropped at the root. */
  function Step(st: seq<string>, seg: string, aboveRoot: bool): seq<string>
  {
    if seg == "" || seg == "." then st
    else if seg == ".." then
      if st != [] && st[|st| - 1] != ".." then st[..|st| - 1]
      else if aboveRoot then st + [".."]
      else st
    else st + [seg]
  }

  /** The segments walked from left to right. */
  function Fold(st: seq<string>, segs: seq<string>, aboveRoot: bool): (r: seq<string>)
    ensures IsStack(st) && NoSlash(segs) ==> IsStack(r)
    ensures AllNames(st) && NoSlash(segs) && !aboveRoot ==> AllNames(r)
    decreases |segs|
  {
    if segs == [] then st
    else Fold(Step(st, segs[0], aboveRoot), segs[1..], aboveRoot)
  }

  /** How `normalize` writes the kept segments back out. */
  function Render(absolute: bool, st: seq<string>, trailing: bool): string
  {
    if st == [] then (if absolute then "/" else if trailing then "./" else ".")
    else (if absolute then "/" else "") + Join(st, "/") + (if trailing then "/" else "")
  }

  /** `path.normalize(p)`: a leading `/` and a trailing `/` survive, `..` at
      the root is dropped, and an empty result is written `.`. */
  function Normalize(p: string): (r: string)
    ensures r != ""
  {
    if p == "" then "."
    else Render(IsAbsolute(p), Fold([], Segments(p), !IsAbsolute(p)), p[|p| - 1] == '/')
  }

  /** The non-empty arguments, in order. */
  function NonEmpty(parts: seq<string>): (kept: seq<string>)
    ensures forall i :: 0 <= i < |kept| ==> kept[i] != ""
    ensures |kept| <= |parts|
  {
    if parts == [] then []
    else if parts[|parts| - 1] == "" then NonEmpty(parts[..|parts| - 1])
    else NonEmpty(parts[..|parts| - 1]) + [parts[|parts| - 1]]
  }

  /** `path.join(...parts)`: the non-empty arguments joined with `/`, then
      normalised; `.` when there are none. */
  function PathJoin(parts: seq<string>): (r: string)
    ensures r != ""
  {
    var kept := NonEmpty(parts);
    if kept == [] then "." else Normalize(Join(kept, "/"))
  }

  /** The segments `p` walks when read from the directory `st`, with `..`
      stopping at the root. */
  function Walk(st: seq<string>, p: string): seq<string> {
    Fold(st, Segments(p), false)
  }

  /** The segments of `path.resolve(p)` when the working directory is `cwd`. */
  function ResolvedSegments(cwd: string, p: string): (r: seq<string>)
    requires IsAbsolute(cwd)
    ensures AllNames(r)
  {
    Walk([], if IsAbsolute(p) then p else cwd + "/" + p)
  }

  /** `path.resolve(p)` when the working directory is `cwd`. */
  function Resolve(cwd: string, p: string): (r: string)
    requires IsAbsolute(cwd)
    ensures IsAbsolute(r)
  {
    "/" + Join(ResolvedSegments(cwd, p), "/")
  }

  // ---------------------------------------------------------------------------
  // relative
  // ---------------------------------------------------------------------------

  /** The length of the longest common prefix of `a` and `b`. */
  function CommonPrefixLength(a: seq<string>, b: seq<string>): (k: nat)
    ensures k <= |a| && k <= |b| && a[..k] == b[..k]
    ensures k < |a| && k < |b| ==> a[k] != b[k]
  {
    if a == [] || b == [] || a[0] != b[0] then 0
    else
      var k := CommonPrefixLength(a[1..], b[1..]);
      assert a[..k + 1] == [a[0]] + a[1..][..k];
      assert b[..k + 1] == [b[0]] + b[1..][..k];
      k + 1
  }

  function Repeat(s: string, n: nat): (r: seq<string>)
    ensures |r| == n && forall i :: 0 <= i < n ==> r[i] == s
  {
    if n == 0 then [] else Repeat(s, n - 1) + [s]
  }

  /** `path.relative(from, to)`: both are resolved, then one `..` for every
      segment of `from` past the common prefix, then the rest of `to`; the
      empty string when both resolve to the same place. */
  function Relative(cwd: string, from: string, to: string): string
    requires IsAbsolute(cwd)
  {
    var f := ResolvedSegments(cwd, from);
    var t := ResolvedSegments(cwd, to);
    var k := CommonPrefixLength(f, t);
    Join(Repeat("..", |f| - k) + t[k..], "/")
  }

  // ---------------------------------------------------------------------------
  // dirname, basename, extname
  // ---------------------------------------------------------------------------

  /** The scan of Node's `dirname`, from index `i` down to 1: trailing slashes
      are passed over, then the first slash after some other character ends
      the directory part. */
  function DirnameEnd(p: string, i: int, matchedSlash: bool): (e: int)
    requires i < |p|
    ensures e == -1 || 1 <= e <= i
    ensures e != -1 ==> p[e] == '/'
    decreases i
  {
    if i < 1 then -1
    else if p[i] == '/' then (if matchedSlash then DirnameEnd(p, i - 1, true) else i)
    else DirnameEnd(p, i - 1, false)
  }

  /** `path.dirname(p)`. */
  function Dirname(p: string): (r: string)
    ensures r != ""
  {
    if p == "" then "."
    else
      var e := DirnameEnd(p, |p| - 1, true);
      if e == -1 then (if p[0] == '/' then "/" else ".")
      else if p[0] == '/' && e == 1 then "//"
      else p[..e]
  }

  /** `p` without its trailing slashes. */
  function DropTrailingSlashes(p: string): (r: string)
    ensures IsPrefix(r, p) && (r == "" || r[|r| - 1] != '/')
    ensures forall i :: |r| <= i < |p| ==> p[i] == '/'
  {
    if p != "" && p[|p| - 1] == '/' then DropTrailingSlashes(p[..|p| - 1]) else p
  }

  /** The text after the last slash. */
  function AfterLastSlash(p: string): (r: string)
    ensures IsSuffix(r, p) && '/' !in r
    ensures |r| < |p| ==> p[|p| - |r| - 1] == '/'
  {
    if p == "" || p[|p| - 1] == '/' then ""
    else
      var r := AfterLastSlash(p[..|p| - 1]);
      assert p[..|p| - 1][|p| - 1 - |r|..] == p[|p| - 1 - |r|..|p| - 1];
      r + [p[|p| - 1]]
  }

  /** `path.basename(p)`: the last segment, trailing slashes ignored. */
  function Basename(p: string): (r: string)
    ensures '/' !in r
  {
    AfterLastSlash(DropTrailingSlashes(p))
  }

  /** The index of the last `c` in `s`, or -1. */
  function LastIndexOf(s: string, c: char): (d: int)
    ensures -1 <= d < |s|
    ensures d == -1 ==> c !in s
    ensures d != -1 ==> s[d] == c && c !in s[d + 1..]
  {
    if s == "" then -1
    else if s[|s| - 1] == c then |s| - 1
    else
      var d := LastIndexOf(s[..|s| - 1], c);
      assert d != -1 ==> s[d + 1..] == s[..|s| - 1][d + 1..] + [s[|s| - 1]];
      d
  }

  /** The extension of a base name `b`: from its last `.` to its end; empty
      when there is no `.`, when the only `.` starts the name, and for `..`. */
  function ExtOf(b: string): (e: string)
    ensures e == "" || (e[0] == '.' && IsSuffix(e, b) && |e| < |b| && '.' !in e[1..])
    ensures e != "" <==> LastIndexOf(b, '.') > 0 && b != ".."
  {
    var d := LastIndexOf(b, '.');
    if d <= 0 || b == ".." then ""
    else
      SuffixFrom(b, d);
      b[d..]
  }

  lemma SuffixFrom(b: string, d: int)
    requires 0 < d < |b| && b[d] == '.' && '.' !in b[d + 1..]
    ensures var e := b[d..];
      e[0] == '.' && IsSuffix(e, b) && |e| < |b| && '.' !in e[1..]
  {
    assert b[d..][1..] == b[d + 1..];
  }

  /** A base name `b` without its extension. */
  function StemOf(b: string): (r: string)
    ensures r + ExtOf(b) == b
    ensures ExtOf(b) != "" ==> r != ""
  {
    var e := ExtOf(b);
    DropSuffix(b, e);
    b[..|b| - |e|]
  }

  /** `path.extname(p)`: the extension of the last segment. */
  function Extname(p: string): (e: string)
    ensures e == "" || (e[0] == '.' && IsSuffix(e, Basename(p)) && |e| < |Basename(p)| && '.' !in e[1..])
    ensures e != "" <==> LastIndexOf(Basename(p), '.') > 0 && Basename(p) != ".."
  {
    ExtOf(Basename(p))
  }

  /** `path.basename(p, path.extname(p))`: the last segment without its
      extension. */
  function BasenameWithoutExt(p: string): (r: string)
    ensures r + Extname(p) == Basename(p)
    ensures Extname(p) != "" ==> r != ""
  {
    StemOf(Basename(p))
  }

  lemma DropSuffix(b: string, e: string)
    requires IsSuffix(e, b)
    ensures b[..|b| - |e|] + e == b
  {
    assert b[..|b| - |e|] + b[|b| - |e|..] == b;
  }

  // ---------------------------------------------------------------------------
  // Walking segments
  // ---------------------------------------------------------------------------

  lemma {:induction false} FoldAppend(st: seq<string>, a: seq<string>, b: seq<string>, aboveRoot: bool)
    ensures Fold(st, a + b, aboveRoot) == Fold(Fold(st, a, aboveRoot), b, aboveRoot)
    decreases |a|
  {
    if a == [] {
      assert a + b == b;
    } else {
      assert (a + b)[1..] == a[1..] + b;
      FoldAppend(Step(st, a[0], aboveRoot), a[1..], b, aboveRoot);
    }
  }

  /** Names are pushed one after another. */
  lemma {:induction false} FoldNames(st: seq<string>, names: seq<string>, aboveRoot: bool)
    requires AllNames(names)
    ensures Fold(st, names, aboveRoot) == st + names
    decreases |names|
  {
    if names != [] {
      FoldNames(st + [names[0]], names[1..], aboveRoot);
      assert st + [names[0]] + names[1..] == st + names;
    }
  }

  /** `n` times `..` climbs `n` levels out of a directory made of names. */
  lemma {:induction false} FoldClimb(st: seq<string>, n: nat, aboveRoot: bool)
    requires AllNames(st) && n <= |st|
    ensures Fold(st, Repeat("..", n), aboveRoot) == st[..|st| - n]
    decreases n
  {
    if n > 0 {
      var up := Repeat("..", n);
      assert up[1..] == Repeat("..", n - 1);
      assert IsName(st[|st| - 1]);
      FoldClimb(st[..|st| - 1], n - 1, aboveRoot);
      assert st[..|st| - 1][..|st| - 1 - (n - 1)] == st[..|st| - n];
    }
  }

  lemma StepNormalised(c: seq<string>, s0: seq<string>, seg: string)
    requires IsStack(s0)
    ensures Fold(c, Step(s0, seg, true), false) == Step(Fold(c, s0, false), seg, false)
  {
    if seg == ".." {
      if s0 != [] && s0[|s0| - 1] != ".." {
        var x := s0[|s0| - 1];
        assert s0 == s0[..|s0| - 1] + [x];
        FoldAppend(c, s0[..|s0| - 1], [x], false);
      } else {
        FoldAppend(c, s0, [".."], false);
      }
    } else if seg != "" && seg != "." {
      FoldAppend(c, s0, [seg], false);
    }
  }

  /** Walking what the normalisation of a relative path kept leads where
      walking the path itself leads. */
  lemma {:induction false} FoldNormalised(c: seq<string>, s0: seq<string>, segs: seq<string>)
    requires IsStack(s0) && NoSlash(segs)
    ensures Fold(c, Fold(s0, segs, true), false) == Fold(Fold(c, s0, false), segs, false)
    decreases |segs|
  {
    if segs != [] {
      StepNormalised(c, s0, segs[0]);
      var s1 := Step(s0, segs[0], true);
      assert IsStack(s1) by {
        assert Fold(s0, [segs[0]], true) == s1;
      }
      FoldNormalised(c, s1, segs[1..]);
    }
  }

  lemma FoldSkips(st: seq<string>, segs: seq<string>, aboveRoot: bool)
    requires forall i :: 0 <= i < |segs| ==> segs[i] == "" || segs[i] == "."
    ensures Fold(st, segs, aboveRoot) == st
    decreases |segs|
  {
    if segs != [] {
      FoldSkips(st, segs[1..], aboveRoot);
    }
  }

  lemma IsStackNoSlash(st: seq<string>)
    requires IsStack(st)
    ensures NoSlash(st)
  {
    assert forall i :: 0 <= i < |st| && st[i] == ".." ==> '/' !in st[i];
  }

  /** The pieces of a rendered stack: a leading and a trailing empty piece
      around the stack, or only empty pieces and `.`. */
  lemma RenderSegments(absolute: bool, st: seq<string>, trailing: bool)
    requires IsStack(st) && st != []
    ensures Segments(Render(absolute, st, trailing))
         == (if absolute then [""] else []) + st + (if trailing then [""] else [])
  {
    var j := Join(st, "/");
    IsStackNoSlash(st);
    SplitJoin(st, '/');
    var h := (if absolute then "/" else "") + j;
    if absolute {
      SplitAppend("", j, '/');
      assert h == "" + "/" + j;
    } else {
      assert h == j;
      assert [] + st == st;
    }
    assert Split(h, '/') == (if absolute then [""] else []) + st;
    if trailing {
      SplitAppend(h, "", '/');
      assert Render(absolute, st, trailing) == h + "/" + "";
    } else {
      assert Render(absolute, st, trailing) == h;
    }
  }

  /** The pieces of a rendered stack walk exactly the stack. */
  lemma RenderWalk(c: seq<string>, absolute: bool, st: seq<string>, trailing: bool, aboveRoot: bool)
    requires IsStack(st)
    ensures Fold(c, Segments(Render(absolute, st, trailing)), aboveRoot) == Fold(c, st, aboveRoot)
  {
    var segs := Segments(Render(absolute, st, trailing));
    if st == [] {
      SplitAppend("", "", '/');
      SplitAppend(".", "", '/');
      SplitNoSep(".", '/');
      assert "/" == "" + "/" + "" && "./" == "." + "/" + "";
      FoldSkips(c, segs, aboveRoot);
    } else {
      RenderSegments(absolute, st, trailing);
      var pre := if absolute then [""] else [];
      var post := if trailing then [""] else [];
      FoldAppend(c, pre + st, post, aboveRoot);
      FoldAppend(c, pre, st, aboveRoot);
      FoldSkips(c, pre, aboveRoot);
      FoldSkips(Fold(c, pre + st, aboveRoot), post, aboveRoot);
    }
  }

  lemma WalkAppend(st: seq<string>, a: string, b: string)
    ensures Walk(st, a + "/" + b) == Walk(Walk(st, a), b)
  {
    SplitAppend(a, b, '/');
    FoldAppend(st, Segments(a), Segments(b), false);
  }

  /** Normalising a path never changes where it leads: from any directory
      when the path is relative, and from the root when it is absolute. */
  lemma NormalizeWalk(st: seq<string>, p: string)
    requires !IsAbsolute(p) || st == []
    ensures Walk(st, Normalize(p)) == Walk(st, p)
  {
    if p == "" {
      SplitNoSep(".", '/');
    } else if IsAbsolute(p) {
      var s := Fold([], Segments(p), false);
      RenderWalk([], true, s, p[|p| - 1] == '/', false);
      FoldNames([], s, false);
    } else {
      var s := Fold([], Segments(p), true);
      RenderWalk(st, false, s, p[|p| - 1] == '/', false);
      FoldNormalised(st, [], Segments(p));
    }
  }

  lemma JoinHead(parts: seq<string>, sep: string)
    requires parts != [] && parts[0] != ""
    ensures Join(parts, sep) != "" && Join(parts, sep)[0] == parts[0][0]
  {
  }

  /** A rendered stack is absolute exactly when it was rendered so. */
  lemma RenderAbsolute(absolute: bool, st: seq<string>, trailing: bool)
    requires IsStack(st)
    ensures IsAbsolute(Render(absolute, st, trailing)) == absolute
  {
    if st != [] {
      JoinHead(st, "/");
      assert '/' !in st[0];
    }
  }

  lemma NormalizeAbsolute(p: string)
    ensures IsAbsolute(Normalize(p)) == IsAbsolute(p)
  {
    if p != "" {
      RenderAbsolute(IsAbsolute(p), Fold([], Segments(p), !IsAbsolute(p)), p[|p| - 1] == '/');
    }
  }

  lemma ResolvedWalk(cwd: string, p: string)
    requires IsAbsolute(cwd)
    ensures ResolvedSegments(cwd, p) == Walk(if IsAbsolute(p) then [] else Walk([], cwd), p)
  {
    if !IsAbsolute(p) {
      WalkAppend([], cwd, p);
    }
  }

  /** `path.resolve(path.normalize(p)) == path.resolve(p)`. */
  lemma NormalizeResolves(cwd: string, p: string)
    requires IsAbsolute(cwd)
    ensures ResolvedSegments(cwd, Normalize(p)) == ResolvedSegments(cwd, p)
  {
    NormalizeAbsolute(p);
    ResolvedWalk(cwd, p);
    ResolvedWalk(cwd, Normalize(p));
    NormalizeWalk(if IsAbsolute(p) then [] else Walk([], cwd), p);
  }

  /** Resolving `a/b` walks `b` from where `a` resolves to. */
  lemma ResolveAppend(cwd: string, a: string, b: string)
    requires IsAbsolute(cwd) && a != ""
    ensures ResolvedSegments(cwd, a + "/" + b) == Walk(ResolvedSegments(cwd, a), b)
  {
    var p := a + "/" + b;
    assert p[0] == a[0];
    if IsAbsolute(a) {
      WalkAppend([], a, b);
    } else {
      assert cwd + "/" + p == (cwd + "/" + a) + "/" + b;
      WalkAppend([], cwd + "/" + a, b);
    }
  }

  // ---------------------------------------------------------------------------
  // relative
  // ---------------------------------------------------------------------------

  /** `path.relative` is the inverse of walking: from where `from` resolves,
      its result leads where `to` resolves. */
  lemma RelativeWalk(cwd: string, from: string, to: string)
    requires IsAbsolute(cwd)
    ensures Walk(ResolvedSegments(cwd, from), Relative(cwd, from, to)) == ResolvedSegments(cwd, to)
  {
    ClimbThenDescend(ResolvedSegments(cwd, from), ResolvedSegments(cwd, to));
  }

  /** Climbing out of `f` to the common prefix and descending into the rest
      of `t` reaches `t`. */
  lemma ClimbThenDescend(f: seq<string>, t: seq<string>)
    requires AllNames(f) && AllNames(t)
    ensures var k := CommonPrefixLength(f, t);
      Walk(f, Join(Repeat("..", |f| - k) + t[k..], "/")) == t
  {
    ClimbPath(f, t, CommonPrefixLength(f, t));
  }

  lemma ClimbPath(f: seq<string>, t: seq<string>, k: nat)
    requires AllNames(f) && AllNames(t) && k <= |f| && k <= |t| && f[..k] == t[..k]
    ensures Walk(f, Join(Repeat("..", |f| - k) + t[k..], "/")) == t
  {
    var up := Repeat("..", |f| - k);
    var path := up + t[k..];
    if path == [] {
      assert |up| == 0 && |t[k..]| == 0;
      StayPut(f, t, k);
      assert Walk(f, Join(path, "/")) == t;
    } else {
      var j := Join(path, "/");
      assert AllNames(t[k..]) by {
        AllNamesFrom(t, k);
      }
      assert Segments(j) == path by {
        ClimbSegments(up, t[k..]);
      }
      assert Fold(f, path, false) == f[..k] + t[k..] by {
        ClimbThenNames(f, k, t[k..]);
      }
      SharedPrefix(f, t, k);
      assert Walk(f, j) == Fold(f, Segments(j), false);
      assert Walk(f, Join(path, "/")) == t;
    }
  }

  /** With no segment left to climb or descend, the walk stays at `f`, which is `t`. */
  lemma StayPut(f: seq<string>, t: seq<string>, k: nat)
    requires k == |f| == |t| && f[..k] == t[..k]
    ensures Walk(f, Join([], "/")) == t
  {
    assert f == f[..k] && t == t[..k];
    SplitNoSep("", '/');
    assert Segments("") == [""];
  }

  lemma SharedPrefix(a: seq<string>, b: seq<string>, k: nat)
    requires k <= |a| && k <= |b| && a[..k] == b[..k]
    ensures a[..k] + b[k..] == b
  {
    assert b[..k] + b[k..] == b;
  }

  /** Climbing `n` levels out of a stack of names, then descending into names. */
  lemma ClimbThenNames(f: seq<string>, k: nat, rest: seq<string>)
    requires AllNames(f) && k <= |f| && AllNames(rest)
    ensures Fold(f, Repeat("..", |f| - k) + rest, false) == f[..k] + rest
  {
    FoldAppend(f, Repeat("..", |f| - k), rest, false);
    FoldClimb(f, |f| - k, false);
    assert |f| - (|f| - k) == k;
    FoldNames(f[..k], rest, false);
  }

  lemma ClimbSegments(up: seq<string>, rest: seq<string>)
    requires forall i :: 0 <= i < |up| ==> up[i] == ".."
    requires AllNames(rest) && up + rest != []
    ensures Segments(Join(up + rest, "/")) == up + rest
  {
    var path := up + rest;
    assert NoSlash(path) by {
      forall i | 0 <= i < |path| ensures '/' !in path[i] {
        if i < |up| {
          assert path[i] == "..";
        } else {
          assert path[i] == rest[i - |up|];
        }
      }
    }
    SplitJoin(path, '/');
  }

  lemma {:induction false} AllNamesFrom(t: seq<string>, k: nat)
    requires AllNames(t) && k <= |t|
    ensures AllNames(t[k..])
  {
    forall i | 0 <= i < |t| - k ensures IsName(t[k..][i]) {
      assert t[k..][i] == t[k + i];
    }
  }

  /** Paths that resolve to the same place are related by the empty path. */
  lemma RelativeSame(cwd: string, from: string, to: string)
    requires IsAbsolute(cwd)
    requires ResolvedSegments(cwd, from) == ResolvedSegments(cwd, to)
    ensures Relative(cwd, from, to) == ""
  {
    var f := ResolvedSegments(cwd, from);
    var k := CommonPrefixLength(f, f);
    assert k == |f|;
    assert Repeat("..", 0) + f[k..] == [];
  }

  /** The result of `path.relative` is never absolute. */
  lemma RelativeNotAbsolute(cwd: string, from: string, to: string)
    requires IsAbsolute(cwd)
    ensures !IsAbsolute(Relative(cwd, from, to))
  {
    var f := ResolvedSegments(cwd, from);
    var t := ResolvedSegments(cwd, to);
    var k := CommonPrefixLength(f, t);
    var path := Repeat("..", |f| - k) + t[k..];
    if path != [] {
      if |f| - k > 0 {
        assert path[0] == "..";
      } else {
        assert path[0] == t[k];
        assert IsName(t[k]);
      }
      JoinHead(path, "/");
    }
  }

  // ---------------------------------------------------------------------------
  // A name joined onto a path
  // ---------------------------------------------------------------------------

  lemma {:induction false} DirnameScanNoSlash(p: string, i: int, matchedSlash: bool)
    requires i < |p|
    requires forall j :: 1 <= j <= i ==> p[j] != '/'
    ensures DirnameEnd(p, i, matchedSlash) == -1
    decreases i
  {
    if i >= 1 {
      DirnameScanNoSlash(p, i - 1, false);
    }
  }

  lemma {:induction false} DirnameScanTo(p: string, k: int, i: int, matchedSlash: bool)
    requires 1 <= k < i < |p| && p[k] == '/'
    requires forall j :: k < j <= i ==> p[j] != '/'
    ensures DirnameEnd(p, i, matchedSlash) == k
    decreases i
  {
    if i - 1 > k {
      DirnameScanTo(p, k, i - 1, false);
    }
  }

  lemma {:induction false} AfterLastSlashTail(x: string, y: string)
    requires '/' !in y && (x == "" || x[|x| - 1] == '/')
    ensures AfterLastSlash(x + y) == y
    decreases |y|
  {
    if y == "" {
      assert x + y == x;
    } else {
      assert (x + y)[..|x + y| - 1] == x + y[..|y| - 1];
      AfterLastSlashTail(x, y[..|y| - 1]);
      assert y[..|y| - 1] + [y[|y| - 1]] == y;
    }
  }

  lemma BasenameAfterSlash(x: string, name: string)
    requires (x == "" || x[|x| - 1] == '/') && IsName(name)
    ensures Basename(x + name) == name
  {
    var r := x + name;
    assert r[|r| - 1] == name[|name| - 1];
    AfterLastSlashTail(x, name);
  }

  /** `dirname` of a name alone, or of a name under the root. */
  lemma DirnameTopName(pre: string, name: string)
    requires (pre == "" || pre == "/") && IsName(name)
    ensures Dirname(pre + name) == (if pre == "" then "." else "/")
  {
    var r := pre + name;
    assert forall j :: 1 <= j < |r| ==> r[j] == name[j - |pre|];
    DirnameScanNoSlash(r, |r| - 1, true);
  }

  /** `dirname` of `y/name`, for a `y` that is neither empty nor the root. */
  lemma DirnameNested(y: string, name: string)
    requires y != "" && (y[0] == '/' ==> |y| >= 2) && IsName(name)
    ensures Dirname(y + "/" + name) == y
  {
    var r := y + "/" + name;
    var k := |y|;
    assert forall j :: k < j < |r| ==> r[j] == name[j - k - 1];
    DirnameScanTo(r, k, |r| - 1, true);
    assert r[..k] == y;
  }

  /** A normalised path that ends in a name has that name as its base name
      and the rest of the path as its directory. */
  lemma RenderLastName(absolute: bool, st: seq<string>, name: string)
    requires IsStack(st) && IsName(name)
    ensures Basename(Render(absolute, st + [name], false)) == name
    ensures Dirname(Render(absolute, st + [name], false)) == Render(absolute, st, false)
  {
    var pre := if absolute then "/" else "";
    if st == [] {
      assert Render(absolute, st + [name], false) == pre + name;
      BasenameAfterSlash(pre, name);
      DirnameTopName(pre, name);
    } else {
      var y := pre + Join(st, "/");
      JoinAppend(st, name, "/");
      JoinHead(st, "/");
      assert Render(absolute, st + [name], false) == y + "/" + name;
      BasenameAfterSlash(y + "/", name);
      DirnameNested(y, name);
    }
  }

  /** Normalising `j/name` normalises `j` and appends the name; normalising
      `j/.` normalises `j` without a trailing slash. */
  lemma NormalizeThenName(j: string, name: string)
    requires j != "" && IsName(name)
    ensures var st := Fold([], Segments(j), !IsAbsolute(j));
      && Normalize(j + "/" + name) == Render(IsAbsolute(j), st + [name], false)
      && Normalize(j + "/" + ".") == Render(IsAbsolute(j), st, false)
  {
    var above := !IsAbsolute(j);
    SplitAppend(j, name, '/');
    SplitNoSep(name, '/');
    SplitAppend(j, ".", '/');
    SplitNoSep(".", '/');
    FoldAppend([], Segments(j), [name], above);
    FoldAppend([], Segments(j), ["."], above);
    assert (j + "/" + name)[0] == j[0] && (j + "/" + ".")[0] == j[0];
  }

  lemma NonEmptyAppend(parts: seq<string>, x: string)
    requires x != ""
    ensures NonEmpty(parts + [x]) == NonEmpty(parts) + [x]
  {
    assert (parts + [x])[..|parts|] == parts;
  }

  /** Joining a name onto paths, not all empty: the name is the last segment
      of the result, and its directory is the join of the paths alone, a
      trailing slash dropped. */
  lemma PathJoinName(parts: seq<string>, name: string)
    requires NonEmpty(parts) != [] && IsName(name)
    ensures Basename(PathJoin(parts + [name])) == name
    ensures Dirname(PathJoin(parts + [name])) == PathJoin(parts + ["."])
  {
    var kept := NonEmpty(parts);
    var j := Join(kept, "/");
    NonEmptyAppend(parts, name);
    NonEmptyAppend(parts, ".");
    JoinAppend(kept, name, "/");
    JoinAppend(kept, ".", "/");
    JoinHead(kept, "/");
    NormalizeThenName(j, name);
    RenderLastName(IsAbsolute(j), Fold([], Segments(j), !IsAbsolute(j)), name);
  }

  /** A name is its own normal form. */
  lemma NormalizeName(name: string)
    requires IsName(name)
    ensures Normalize(name) == name
  {
    SplitNoSep(name, '/');
    assert !IsAbsolute(name) by { assert name[0] in name; }
    assert name[|name| - 1] != '/' by { assert name[|name| - 1] in name; }
    assert Fold([], [name], true) == [name] by {
      assert Step([], name, true) == [name];
      assert [name][1..] == [];
    }
    assert Render(false, [name], false) == name by {
      assert Join([name], "/") == name;
      assert "" + name + "" == name;
    }
  }

  /** A leading `./` is a `.` segment, which walking passes over. */
  lemma DotSlashWalk(st: seq<string>, p: string)
    ensures Walk(st, "./" + p) == Walk(st, p)
  {
    assert "./" + p == "." + "/" + p;
    SplitAppend(".", p, '/');
    SplitNoSep(".", '/');
    FoldAppend(st, ["."], Segments(p), false);
  }

  lemma NonEmptyPair(a: string, b: string)
    requires b != ""
    ensures NonEmpty([a, b]) == (if a == "" then [b] else [a, b])
  {
    NonEmptyAppend([a], b);
    assert [a][..0] == [];
  }

  lemma JoinLastChar(names: seq<string>, sep: string)
    requires names != [] && names[|names| - 1] != ""
    ensures var j := Join(names, sep); var last := names[|names| - 1];
      j != "" && j[|j| - 1] == last[|last| - 1]
  {
    var last := names[|names| - 1];
    if |names| > 1 {
      JoinAppend(names[..|names| - 1], last, sep);
      assert names[..|names| - 1] + [last] == names;
    }
  }

  /** A relative path made of names is its own normal form. */
  lemma NormalizeNames(names: seq<string>)
    requires names != [] && AllNames(names)
    ensures Normalize(Join(names, "/")) == Join(names, "/")
  {
    var j := Join(names, "/");
    JoinHead(names, "/");
    assert '/' !in names[0];
    JoinLastChar(names, "/");
    assert '/' !in names[|names| - 1];
    SplitJoin(names, '/');
    FoldNames([], names, true);
    assert names[0][0] in names[0];
    assert !IsAbsolute(j);
    var last := names[|names| - 1];
    assert last[|last| - 1] in last;
    assert j[|j| - 1] != '/';
    assert Fold([], Segments(j), true) == names;
    assert Normalize(j) == Render(false, names, false);
  }

  lemma BasenameNoSlash(s: string)
    requires s != "" && '/' !in s
    ensures Basename(s) == s
  {
    assert DropTrailingSlashes(s) == s;
    AfterLastSlashTail("", s);
    assert "" + s == s;
  }

  /** The extension starts at the last `.` of the base name, when that is
      not its first character and the base name is not `..`. */
  lemma ExtnameAt(p: string, d: int)
    requires LastIndexOf(Basename(p), '.') == d && d > 0 && Basename(p) != ".."
    ensures Extname(p) == Basename(p)[d..]
    ensures BasenameWithoutExt(p) == Basename(p)[..d]
  {
  }

  /** Base name and extension depend on the last segment only. */
  lemma SameBasename(p: string, q: string)
    requires Basename(p) == Basename(q)
    ensures Extname(p) == Extname(q) && BasenameWithoutExt(p) == BasenameWithoutExt(q)
  {
  }

  /** Two paths with the same start, the same last character and the same
      walk from the start have the same normal form. */
  lemma NormalizeSameWalk(x: string, y: string)
    requires x != "" && y != "" && IsAbsolute(x) == IsAbsolute(y) && x[|x| - 1] == y[|y| - 1]
    requires Fold([], Segments(x), !IsAbsolute(x)) == Fold([], Segments(y), !IsAbsolute(x))
    ensures Normalize(x) == Normalize(y)
  {
  }

  lemma NormalizeDotSlash(p: string)
    requires p != "" && !IsAbsolute(p)
    ensures Normalize("./" + p) == Normalize(p)
  {
    assert "./" + p == "." + "/" + p;
    SplitAppend(".", p, '/');
    SplitNoSep(".", '/');
    FoldAppend([], ["."], Segments(p), true);
    assert ("./" + p)[|"./" + p| - 1] == p[|p| - 1];
    NormalizeSameWalk("./" + p, p);
  }

  lemma NormalizeInnerDot(a: string, p: string)
    requires a != "" && p != ""
    ensures Normalize(a + "/" + ("./" + p)) == Normalize(a + "/" + p)
  {
    var x := a + "/" + ("./" + p);
    var y := a + "/" + p;
    assert x[0] == a[0] && y[0] == a[0];
    assert x[|x| - 1] == p[|p| - 1] && y[|y| - 1] == p[|p| - 1];
    InnerDotWalk(a, p, !IsAbsolute(a));
    NormalizeSameWalk(x, y);
  }

  lemma InnerDotWalk(a: string, p: string, above: bool)
    ensures Fold([], Segments(a + "/" + ("./" + p)), above) == Fold([], Segments(a + "/" + p), above)
  {
    assert "./" + p == "." + "/" + p;
    SplitAppend(".", p, '/');
    SplitNoSep(".", '/');
    SplitAppend(a, "./" + p, '/');
    SplitAppend(a, p, '/');
    FoldAppend([], Segments(a), ["."] + Segments(p), above);
    FoldAppend(Fold([], Segments(a), above), ["."], Segments(p), above);
    FoldAppend([], Segments(a), Segments(p), above);
  }

  /** Joining `./p` is joining `p`, unless `p` is empty or, with nothing
      before it, absolute. */
  lemma PathJoinDotSlash(a: string, p: string)
    requires p != "" && (a != "" || !IsAbsolute(p))
    ensures PathJoin([a, "./" + p]) == PathJoin([a, p])
  {
    NonEmptyPair(a, "./" + p);
    NonEmptyPair(a, p);
    if a == "" {
      assert PathJoin([a, "./" + p]) == Normalize("./" + p);
      assert PathJoin([a, p]) == Normalize(p);
      NormalizeDotSlash(p);
    } else {
      assert Join([a, "./" + p], "/") == a + "/" + ("./" + p);
      assert Join([a, p], "/") == a + "/" + p;
      NormalizeInnerDot(a, p);
    }
  }

  lemma WalkRelativeThenName(st: seq<string>, rel: string, name: string)
    requires rel != "" && !IsAbsolute(rel) && IsName(name)
    ensures Walk(st, Normalize(rel + "/" + name)) == Walk(st, rel) + [name]
    ensures !IsAbsolute(Normalize(rel + "/" + name))
  {
    var x := rel + "/" + name;
    assert x[0] == rel[0];
    NormalizeWalk(st, x);
    NormalizeAbsolute(x);
    WalkAppend(st, rel, name);
    SplitNoSep(name, '/');
    assert Fold(Walk(st, rel), [name], false) == Walk(st, rel) + [name];
  }

  /** Joining a name onto a relative path walks the path, then the name. */
  lemma WalkJoinedName(st: seq<string>, rel: string, name: string)
    requires !IsAbsolute(rel) && IsName(name)
    ensures Walk(st, PathJoin([rel, name])) == Walk(st, rel) + [name]
    ensures !IsAbsolute(PathJoin([rel, name]))
  {
    NonEmptyPair(rel, name);
    if rel == "" {
      assert PathJoin([rel, name]) == Normalize(name);
      NormalizeName(name);
      SplitNoSep(name, '/');
      SplitNoSep("", '/');
      assert Walk(st, name) == Fold(st, [name], false) == st + [name];
      assert Walk(st, rel) == Fold(st, [""], false) == st;
    } else {
      assert Join([rel, name], "/") == rel + "/" + name;
      assert PathJoin([rel, name]) == Normalize(rel + "/" + name);
      WalkRelativeThenName(st, rel, name);
    }
  }

  /** Joining a name onto a relative path gives a path ending in that name. */
  lemma BasenameJoinedName(rel: string, name: string)
    requires IsName(name)
    ensures Basename(PathJoin([rel, name])) == name
  {
    NonEmptyPair(rel, name);
    if rel == "" {
      NormalizeName(name);
      BasenameAfterSlash("", name);
      assert "" + name == name;
    } else {
      assert NonEmpty([rel]) == [rel];
      PathJoinName([rel], name);
      assert [rel] + [name] == [rel, name];
    }
  }
}
